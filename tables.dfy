/**
  The data the width functions consume: per-version tables of inclusive
  codepoint ranges (zero width, East Asian wide, narrow-to-wide on VS16)
  and the version resolver. The table contents are generated data and the
  resolver's matching rules are not part of this model; both enter as the
  fields of an `Env` value, constrained only by `Valid`.
*/
module Tables {

  /** A Unicode codepoint, as `ord` yields it for one character. */
  type Codepoint = c: int | 0 <= c <= 0x10FFFF

  datatype Option<T> = None | Some(value: T)

  /** One inclusive range lo..hi of codepoints sharing a classification. */
  datatype Range = Range(lo: Codepoint, hi: Codepoint)

  /** Ranges are non-empty, ascending and pairwise disjoint. */
  predicate WellFormed(table: seq<Range>)
  {
    (forall i :: 0 <= i < |table| ==> table[i].lo <= table[i].hi) &&
    (forall i, j :: 0 <= i < j < |table| ==> table[i].hi < table[j].lo)
  }

  /** Membership of `ucs` in one of the table's ranges. */
  predicate InRanges(ucs: int, table: seq<Range>)
  {
    exists i :: 0 <= i < |table| && table[i].lo <= ucs <= table[i].hi
  }

  /** Membership as the 0-or-1 contribution the width arithmetic adds. */
  function Lookup(ucs: int, table: seq<Range>): nat
  {
    if InRanges(ucs, table) then 1 else 0
  }

  /**
    Binary search for `ucs` among the ranges of a well-formed table,
    answering 1 when some range holds it and 0 otherwise.
  */
  method Bisearch(ucs: int, table: seq<Range>) returns (found: nat)
    requires WellFormed(table)
    ensures found <= 1
    ensures found == 1 <==> InRanges(ucs, table)
  {
    var lbound, ubound := 0, |table|;
    while lbound < ubound
      invariant 0 <= lbound <= ubound <= |table|
      invariant forall k :: 0 <= k < lbound ==> table[k].hi < ucs
      invariant forall k :: ubound <= k < |table| ==> ucs < table[k].lo
    {
      var mid := (lbound + ubound) / 2;
      if ucs > table[mid].hi {
        lbound := mid + 1;
      } else if ucs < table[mid].lo {
        ubound := mid;
      } else {
        return 1;
      }
    }
    return 0;
  }

  /** A Unicode version as the triple (major, minor, patch). */
  datatype Version = Version(major: nat, minor: nat, patch: nat)

  /** Lexicographic order on triples, as Python compares tuples. */
  predicate VersionLe(a: Version, b: Version)
  {
    a.major < b.major ||
    (a.major == b.major && (a.minor < b.minor || (a.minor == b.minor && a.patch <= b.patch)))
  }

  /** The version from which VS16 may widen a narrow character. */
  const Vs16MinVersion := Version(9, 0, 0)

  /** The one key under which the VS16 table is always read. */
  const Vs16TableKey := "9.0.0"

  /**
    The range tables keyed by version string, the resolver that maps a
    requested version selector to one of those keys, and the parser that
    turns a key into a version triple.
  */
  datatype Env = Env(
    zeroWidth: map<string, seq<Range>>,
    wideEastAsian: map<string, seq<Range>>,
    vs16NarrowToWide: map<string, seq<Range>>,
    matchVersion: string -> string,
    versionValue: string -> Version)

  /**
    Every selector resolves to a key present in the zero-width and wide
    tables, the VS16 table has its "9.0.0" entry, and every table is
    well formed.
  */
  ghost predicate Valid(env: Env)
  {
    (forall sel :: env.matchVersion(sel) in env.zeroWidth && env.matchVersion(sel) in env.wideEastAsian) &&
    (forall key :: key in env.zeroWidth ==> WellFormed(env.zeroWidth[key])) &&
    (forall key :: key in env.wideEastAsian ==> WellFormed(env.wideEastAsian[key])) &&
    Vs16TableKey in env.vs16NarrowToWide &&
    WellFormed(env.vs16NarrowToWide[Vs16TableKey])
  }

  /** The version triple a selector resolves to. */
  function Resolved(env: Env, selector: string): Version
  {
    env.versionValue(env.matchVersion(selector))
  }
}
