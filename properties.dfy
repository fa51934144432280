/**
  Properties of the single-codepoint classification and of the string
  scan, each stated for all tables, resolvers and selectors that `Valid`
  admits.
*/
module WidthProperties {
  import opened Tables
  import opened Width

  // ---------------------------------------------------------------------
  // One codepoint

  /** Printable ASCII is 1 cell whatever the tables and the selector. */
  lemma AsciiIgnoresTables(env: Env, other: Env, ucs: Codepoint, selector: string, otherSelector: string)
    requires Valid(env) && Valid(other)
    requires IsPrintableAscii(ucs)
    ensures Wcwidth(env, Some(ucs), selector) == 1
    ensures Wcwidth(env, Some(ucs), selector) == Wcwidth(other, Some(ucs), otherSelector)
  {
  }

  /**
    An absent character is measured as NUL, which has no fast path and is
    not a control: its width comes from the tables and is never -1.
  */
  lemma AbsentIsNul(env: Env, selector: string)
    requires Valid(env)
    ensures Wcwidth(env, None, selector) == Wcwidth(env, Some(0), selector)
    ensures Wcwidth(env, None, selector) == 0 <==> InRanges(0, env.zeroWidth[env.matchVersion(selector)])
    ensures Wcwidth(env, None, selector) >= 0
  {
  }

  /**
    Outside the fast paths a codepoint is 0 cells exactly when it is in the
    zero-width table, 2 exactly when it is in the wide table and not the
    zero-width one, and 1 otherwise; zero width wins over wide.
  */
  lemma TableClassification(env: Env, ucs: Codepoint, selector: string)
    requires Valid(env)
    requires !IsPrintableAscii(ucs) && !IsControl(ucs)
    ensures var zero := env.zeroWidth[env.matchVersion(selector)];
            var wide := env.wideEastAsian[env.matchVersion(selector)];
            var r := Wcwidth(env, Some(ucs), selector);
            (r == 0 <==> InRanges(ucs, zero)) &&
            (r == 2 <==> !InRanges(ucs, zero) && InRanges(ucs, wide)) &&
            (r == 1 <==> !InRanges(ucs, zero) && !InRanges(ucs, wide))
  {
  }

  /** A codepoint in both the zero-width and the wide table is 0 cells. */
  lemma ZeroWidthWins(env: Env, ucs: Codepoint, selector: string)
    requires Valid(env)
    requires !IsPrintableAscii(ucs) && !IsControl(ucs)
    requires InRanges(ucs, env.zeroWidth[env.matchVersion(selector)])
    requires InRanges(ucs, env.wideEastAsian[env.matchVersion(selector)])
    ensures Wcwidth(env, Some(ucs), selector) == 0
  {
  }

  // ---------------------------------------------------------------------
  // Strings

  /** A one-character string other than a lone joiner is that character's width. */
  lemma SingleCharacter(env: Env, ucs: Codepoint, selector: string)
    requires Valid(env)
    requires ucs != ZWJ
    ensures StringWidth(env, [ucs], selector) == Wcwidth(env, Some(ucs), selector)
  {
    var w := Wcwidth(env, Some(ucs), selector);
    assert [ucs][1..] == [];
    assert SeqWidth(env, [], selector, if w > 0 then Some(ucs) else None) == 0;
  }

  /**
    A joiner contributes nothing and hides the character after it, whatever
    that character is; a joiner at the end simply ends the scan.
  */
  lemma JoinerSkipsPair(env: Env, x: Codepoint, t: seq<Codepoint>, selector: string, last: Option<Codepoint>)
    requires Valid(env)
    ensures SeqWidth(env, [ZWJ, x] + t, selector, last) == SeqWidth(env, t, selector, last)
    ensures SeqWidth(env, [ZWJ], selector, last) == 0
  {
  }

  /** Without joiners the scan visits every element. */
  lemma {:induction false} NoJoinerMeetsEveryControl(s: seq<Codepoint>, i: nat)
    requires ZWJ !in s
    requires i < |s| && IsControl(s[i])
    ensures MeetsControl(s)
    decreases i
  {
    if i > 0 {
      assert s[1..][i - 1] == s[i];
      NoJoinerMeetsEveryControl(s[1..], i - 1);
    }
  }

  /** A string without joiners that holds a control character anywhere is -1. */
  lemma ControlAnywhere(env: Env, s: seq<Codepoint>, i: nat, selector: string, last: Option<Codepoint>)
    requires Valid(env)
    requires ZWJ !in s
    requires i < |s| && IsControl(s[i])
    ensures SeqWidth(env, s, selector, last) == -1
  {
    NoJoinerMeetsEveryControl(s, i);
    ControlIffNegative(env, s, selector, last);
  }

  /** The scan only lands on elements of the string. */
  lemma {:induction false} ControlFreeMeetsNone(s: seq<Codepoint>)
    requires forall i :: 0 <= i < |s| ==> !IsControl(s[i])
    ensures !MeetsControl(s)
    decreases |s|
  {
    if s != [] {
      if s[0] == ZWJ {
        assert forall i :: 0 <= i < |Drop(s, 2)| ==> Drop(s, 2)[i] == s[i + 2];
        ControlFreeMeetsNone(Drop(s, 2));
      } else {
        assert forall i :: 0 <= i < |s[1..]| ==> s[1..][i] == s[i + 1];
        ControlFreeMeetsNone(s[1..]);
      }
    }
  }

  /** A string with no control character has a width of at least 0. */
  lemma NoControlNonNegative(env: Env, s: seq<Codepoint>, selector: string, last: Option<Codepoint>)
    requires Valid(env)
    requires forall i :: 0 <= i < |s| ==> !IsControl(s[i])
    ensures 0 <= SeqWidth(env, s, selector, last) <= 2 * |s|
  {
    ControlFreeMeetsNone(s);
    ControlIffNegative(env, s, selector, last);
  }

  /** The plain sum of the characters' widths. */
  function SumWidths(env: Env, s: seq<Codepoint>, selector: string): int
    requires Valid(env)
    decreases |s|
  {
    if s == [] then 0 else Wcwidth(env, Some(s[0]), selector) + SumWidths(env, s[1..], selector)
  }

  /**
    With no joiner, no VS16 and no control character the string width is
    the sum of the characters' widths.
  */
  lemma {:induction false} PlainSum(env: Env, s: seq<Codepoint>, selector: string, last: Option<Codepoint>)
    requires Valid(env)
    requires forall i :: 0 <= i < |s| ==> s[i] != ZWJ && s[i] != VS16 && !IsControl(s[i])
    ensures SeqWidth(env, s, selector, last) == SumWidths(env, s, selector)
    decreases |s|
  {
    if s != [] {
      var w := Wcwidth(env, Some(s[0]), selector);
      var next := if w > 0 then Some(s[0]) else last;
      assert forall i :: 0 <= i < |s[1..]| ==> s[1..][i] == s[i + 1];
      PlainSum(env, s[1..], selector, next);
      NoControlNonNegative(env, s[1..], selector, next);
    }
  }

  /**
    A joined pair between two characters leaves only the first one's width:
    [a, ZWJ, b] measures a alone.
  */
  lemma JoinedPairCountsFirst(env: Env, a: Codepoint, b: Codepoint, selector: string)
    requires Valid(env)
    requires a != ZWJ
    ensures StringWidth(env, [a, ZWJ, b], selector) == Wcwidth(env, Some(a), selector)
  {
    var w := Wcwidth(env, Some(a), selector);
    assert [a, ZWJ, b][1..] == [ZWJ, b] + [];
    JoinerSkipsPair(env, b, [], selector, if w > 0 then Some(a) else None);
  }

  /**
    VS16 after a character that occupies cells adds that character's entry
    in the "9.0.0" VS16 table, but only from version 9.0.0 on.
  */
  lemma Vs16AfterMeasured(env: Env, b: Codepoint, selector: string)
    requires Valid(env)
    requires b != ZWJ && b != VS16
    requires Wcwidth(env, Some(b), selector) > 0
    ensures StringWidth(env, [b, VS16], selector) ==
            Wcwidth(env, Some(b), selector) +
            (if Vs16Widens(env, selector) then Lookup(b, env.vs16NarrowToWide[Vs16TableKey]) else 0)
  {
    var w := Wcwidth(env, Some(b), selector);
    assert [b, VS16][1..] == [VS16];
    assert [VS16][1..] == [];
    assert StringWidth(env, [b, VS16], selector) == Combine(w, SeqWidth(env, [VS16], selector, Some(b)));
    if Vs16Widens(env, selector) {
      assert SeqWidth(env, [VS16], selector, Some(b)) ==
             Combine(Lookup(b, env.vs16NarrowToWide[Vs16TableKey]), SeqWidth(env, [], selector, None));
    } else {
      assert SeqWidth(env, [VS16], selector, Some(b)) == SeqWidth(env, [], selector, Some(b));
    }
  }

  /**
    From 9.0.0 on, VS16 forgets the remembered character, so a second VS16
    in a row is measured as an ordinary character; before 9.0.0 both add 0.
  */
  lemma Vs16Twice(env: Env, b: Codepoint, selector: string)
    requires Valid(env)
    requires b != ZWJ && b != VS16
    requires Wcwidth(env, Some(b), selector) > 0
    ensures StringWidth(env, [b, VS16, VS16], selector) ==
            Wcwidth(env, Some(b), selector) +
            (if Vs16Widens(env, selector)
             then Lookup(b, env.vs16NarrowToWide[Vs16TableKey]) + Wcwidth(env, Some(VS16), selector)
             else 0)
  {
    var w := Wcwidth(env, Some(b), selector);
    assert [b, VS16, VS16][1..] == [VS16, VS16];
    assert [VS16, VS16][1..] == [VS16];
    assert StringWidth(env, [b, VS16, VS16], selector) == Combine(w, SeqWidth(env, [VS16, VS16], selector, Some(b)));
    if Vs16Widens(env, selector) {
      assert SeqWidth(env, [VS16, VS16], selector, Some(b)) ==
             Combine(Lookup(b, env.vs16NarrowToWide[Vs16TableKey]), SeqWidth(env, [VS16], selector, None));
      LoneVs16IsMeasured(env, selector);
    } else {
      assert [VS16][1..] == [];
      assert SeqWidth(env, [VS16, VS16], selector, Some(b)) == SeqWidth(env, [VS16], selector, Some(b));
      assert SeqWidth(env, [VS16], selector, Some(b)) == SeqWidth(env, [], selector, Some(b));
    }
  }

  /** Before 9.0.0, VS16 adds nothing and keeps the remembered character. */
  lemma Vs16BeforeNineKeepsMemory(env: Env, b: Codepoint, t: seq<Codepoint>, selector: string)
    requires Valid(env)
    requires !Vs16Widens(env, selector)
    ensures SeqWidth(env, [VS16] + t, selector, Some(b)) == SeqWidth(env, t, selector, Some(b))
  {
  }

  /** VS16 with nothing remembered is measured like any other character. */
  lemma LoneVs16IsMeasured(env: Env, selector: string)
    requires Valid(env)
    ensures StringWidth(env, [VS16], selector) == Wcwidth(env, Some(VS16), selector)
  {
    SingleCharacter(env, VS16, selector);
  }

  /**
    A zero-width character contributes nothing and does not replace the
    remembered character, so a later VS16 still refers to the one before it.
  */
  lemma ZeroWidthIsTransparent(env: Env, z: Codepoint, t: seq<Codepoint>, selector: string, last: Option<Codepoint>)
    requires Valid(env)
    requires z != ZWJ && z != VS16
    requires Wcwidth(env, Some(z), selector) == 0
    ensures SeqWidth(env, [z] + t, selector, last) == SeqWidth(env, t, selector, last)
  {
  }

  /** [b, z, VS16] with z zero width measures as [b, VS16]. */
  lemma ZeroWidthBeforeVs16(env: Env, b: Codepoint, z: Codepoint, selector: string)
    requires Valid(env)
    requires b != ZWJ && b != VS16 && Wcwidth(env, Some(b), selector) > 0
    requires z != ZWJ && z != VS16 && Wcwidth(env, Some(z), selector) == 0
    ensures StringWidth(env, [b, z, VS16], selector) == StringWidth(env, [b, VS16], selector)
  {
    assert [b, z, VS16][1..] == [z] + [VS16];
    assert [b, VS16][1..] == [VS16];
    ZeroWidthIsTransparent(env, z, [VS16], selector, Some(b));
  }
}
