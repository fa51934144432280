/**
  Terminal cell width of one codepoint (`Wcwidth`) and of a string
  (`Wcswidth`). `SeqWidth` is the reference definition of the string scan,
  written as a recursion over the rest of the string; the `Wcswidth` method
  is the index-and-accumulator loop, proved equal to it.
*/
module Width {
  import opened Tables

  /** Zero Width Joiner, U+200D. */
  const ZWJ: Codepoint := 0x200D

  /** Variation Selector-16, U+FE0F. */
  const VS16: Codepoint := 0xFE0F

  /** The codepoint of the argument; an empty or absent character is 0. */
  function Ord(wc: Option<Codepoint>): Codepoint
  {
    if wc.Some? then wc.value else 0
  }

  /** The C0 controls 1..31, DEL and the C1 controls 0x80..0x9F. */
  predicate IsControl(ucs: int)
  {
    0 < ucs < 32 || 0x7F <= ucs < 0xA0
  }

  /** Printable US-ASCII, the fast path that consults no table. */
  predicate IsPrintableAscii(ucs: int)
  {
    32 <= ucs < 0x7F
  }

  /**
    The number of cells `wc` occupies: 1 for printable ASCII, -1 for a
    control character, 0 for a zero-width codepoint of the resolved
    version, otherwise 2 for an East Asian wide one and 1 for the rest.
  */
  function Wcwidth(env: Env, wc: Option<Codepoint>, selector: string): (r: int)
    requires Valid(env)
    ensures -1 <= r <= 2
    ensures r == -1 <==> IsControl(Ord(wc))
    ensures IsPrintableAscii(Ord(wc)) ==> r == 1
  {
    var ucs := Ord(wc);
    if 32 <= ucs < 0x7F then 1
    else if (ucs != 0 && ucs < 32) || (0x7F <= ucs < 0xA0) then -1
    else
      var version := env.matchVersion(selector);
      if InRanges(ucs, env.zeroWidth[version]) then 0
      else 1 + Lookup(ucs, env.wideEastAsian[version])
  }

  /** The suffix of `s` from index `k`, empty once `k` passes the end. */
  function Drop<T>(s: seq<T>, k: nat): seq<T>
  {
    if k <= |s| then s[k..] else []
  }

  /**
    A width accumulated so far followed by the width of the rest: a
    negative rest (a control character) replaces the whole result.
  */
  function Combine(acc: int, rest: int): int
  {
    if rest < 0 then rest else acc + rest
  }

  /** Whether VS16 may widen the remembered character at this selector. */
  predicate Vs16Widens(env: Env, selector: string)
  {
    VersionLe(Vs16MinVersion, Resolved(env, selector))
  }

  /**
    The width of `s` when the scan arrives at its first element remembering
    `last`, the last character measured to occupy a cell.
  */
  function SeqWidth(env: Env, s: seq<Codepoint>, selector: string, last: Option<Codepoint>): (r: int)
    requires Valid(env)
    ensures -1 <= r <= 2 * |s|
    decreases |s|
  {
    if s == [] then 0
    else if s[0] == ZWJ then
      SeqWidth(env, Drop(s, 2), selector, last)
    else if s[0] == VS16 && last.Some? then
      if Vs16Widens(env, selector) then
        Combine(Lookup(last.value, env.vs16NarrowToWide[Vs16TableKey]), SeqWidth(env, s[1..], selector, None))
      else
        SeqWidth(env, s[1..], selector, last)
    else
      var w := Wcwidth(env, Some(s[0]), selector);
      if w < 0 then w
      else Combine(w, SeqWidth(env, s[1..], selector, if w > 0 then Some(s[0]) else last))
  }

  /** The width of a whole string: nothing is remembered at the start. */
  function StringWidth(env: Env, s: seq<Codepoint>, selector: string): int
    requires Valid(env)
  {
    SeqWidth(env, s, selector, None)
  }

  /** The characters measured: all of `pwcs`, or its first `n` when given. */
  function Prefix(pwcs: seq<Codepoint>, n: Option<int>): seq<Codepoint>
    requires n.Some? ==> n.value <= |pwcs|
  {
    if n.None? then pwcs
    else if n.value <= 0 then []
    else pwcs[..n.value]
  }

  /**
    Whether the scan of `s` lands on a control character: it visits every
    element except the one after each visited joiner.
  */
  predicate MeetsControl(s: seq<Codepoint>)
    decreases |s|
  {
    if s == [] then false
    else if s[0] == ZWJ then MeetsControl(Drop(s, 2))
    else IsControl(s[0]) || MeetsControl(s[1..])
  }

  /**
    The scan yields -1 exactly when it lands on a control character,
    whatever the tables, the version and the remembered character.
  */
  lemma {:induction false} ControlIffNegative(env: Env, s: seq<Codepoint>, selector: string, last: Option<Codepoint>)
    requires Valid(env)
    ensures SeqWidth(env, s, selector, last) == -1 <==> MeetsControl(s)
    ensures SeqWidth(env, s, selector, last) >= 0 <==> !MeetsControl(s)
    decreases |s|
  {
    if s == [] {
    } else if s[0] == ZWJ {
      ControlIffNegative(env, Drop(s, 2), selector, last);
    } else if s[0] == VS16 && last.Some? {
      ControlIffNegative(env, s[1..], selector, None);
      ControlIffNegative(env, s[1..], selector, last);
    } else {
      var w := Wcwidth(env, Some(s[0]), selector);
      ControlIffNegative(env, s[1..], selector, if w > 0 then Some(s[0]) else last);
    }
  }

  /**
    The string width of `pwcs`, or of its first `n` characters: joiners
    hide themselves and the next character, VS16 may widen the last
    measured character, and the first control character makes it -1.
  */
  method Wcswidth(env: Env, pwcs: seq<Codepoint>, n: Option<int>, selector: string) returns (width: int)
    requires Valid(env)
    requires n.Some? ==> n.value <= |pwcs|
    ensures width == StringWidth(env, Prefix(pwcs, n), selector)
    ensures width == -1 <==> MeetsControl(Prefix(pwcs, n))
    ensures width >= 0 <==> !MeetsControl(Prefix(pwcs, n))
    ensures Prefix(pwcs, n) == [] ==> width == 0
  {
    ghost var s := Prefix(pwcs, n);
    ControlIffNegative(env, s, selector, None);
    var unicodeVersion: Option<Version> := None;
    var end := if n.None? then |pwcs| else n.value;
    width := 0;
    var idx := 0;
    var lastMeasured: Option<Codepoint> := None;
    assert |s| == (if end < 0 then 0 else end);
    while idx < end
      invariant 0 <= idx
      invariant end > 0 ==> |s| == end
      invariant end <= 0 ==> s == [] && idx == 0
      invariant width >= 0
      invariant unicodeVersion.Some? ==> unicodeVersion.value == Resolved(env, selector)
      invariant StringWidth(env, s, selector) == Combine(width, SeqWidth(env, Drop(s, idx), selector, lastMeasured))
      decreases end - idx
    {
      var ch := pwcs[idx];
      ghost var rest := Drop(s, idx);
      assert rest != [] && rest[0] == ch;
      assert rest[1..] == Drop(s, idx + 1);
      if ch == ZWJ {
        assert Drop(rest, 2) == Drop(s, idx + 2);
        idx := idx + 2;
        continue;
      }
      if ch == VS16 && lastMeasured.Some? {
        if unicodeVersion.None? {
          unicodeVersion := Some(env.versionValue(env.matchVersion(selector)));
        }
        if VersionLe(Vs16MinVersion, unicodeVersion.value) {
          var widened := Bisearch(lastMeasured.value, env.vs16NarrowToWide[Vs16TableKey]);
          width := width + widened;
          lastMeasured := None;
        }
        idx := idx + 1;
        continue;
      }
      var wcw := Wcwidth(env, Some(ch), selector);
      if wcw < 0 {
        return wcw;
      }
      if wcw > 0 {
        lastMeasured := Some(ch);
      }
      width := width + wcw;
      idx := idx + 1;
    }
  }
}
