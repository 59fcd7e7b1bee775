/** The finite space of truncated digests: all lowercase hex strings of a given
    length, and a bound on its size. This is the pigeonhole that ends the
    collision search of `workSync`. */
module HexSpace {
  import opened JsText
  import opened Externals

  /** The sixteen digits `0123456789abcdef`. */
  const HexDigits: seq<CodeUnit> :=
    ['0' as int, '1' as int, '2' as int, '3' as int, '4' as int, '5' as int, '6' as int, '7' as int,
     '8' as int, '9' as int, 'a' as int, 'b' as int, 'c' as int, 'd' as int, 'e' as int, 'f' as int]

  function Pow(base: nat, exp: nat): nat {
    if exp == 0 then 1 else base * Pow(base, exp - 1)
  }

  /** The strings `[c] + t` for every `t` in `tails`. */
  function Prepend(c: CodeUnit, tails: set<JsString>): set<JsString> {
    set t | t in tails :: [c] + t
  }

  /** The strings `[c] + t` for every `c` in `heads` and `t` in `tails`. */
  function PrependEach(heads: seq<CodeUnit>, tails: set<JsString>): set<JsString> {
    if heads == [] then {} else Prepend(heads[0], tails) + PrependEach(heads[1..], tails)
  }

  /** All hex strings of length `n`. */
  function HexStrings(n: nat): set<JsString> {
    if n == 0 then {[]} else PrependEach(HexDigits, HexStrings(n - 1))
  }

  lemma {:induction false} SubsetCard<T>(a: set<T>, b: set<T>)
    requires a <= b
    ensures |a| <= |b|
  {
    assert b == a + (b - a);
  }

  lemma {:induction false} PrependCard(c: CodeUnit, tails: set<JsString>)
    ensures |Prepend(c, tails)| == |tails|
    decreases |tails|
  {
    if tails != {} {
      var t :| t in tails;
      var rest := tails - {t};
      PrependCard(c, rest);
      assert Prepend(c, tails) == Prepend(c, rest) + {[c] + t};
      assert forall u :: u in rest ==> ([c] + u)[1..] == u != t;
      assert [c] + t !in Prepend(c, rest);
    }
  }

  lemma {:induction false} PrependEachCard(heads: seq<CodeUnit>, tails: set<JsString>)
    ensures |PrependEach(heads, tails)| <= |heads| * |tails|
  {
    if heads != [] {
      var first, rest := Prepend(heads[0], tails), PrependEach(heads[1..], tails);
      PrependCard(heads[0], tails);
      PrependEachCard(heads[1..], tails);
      assert |first + rest| <= |first| + |rest|;
      assert (|heads| - 1) * |tails| + |tails| == |heads| * |tails|;
    }
  }

  lemma {:induction false} MemberOfPrependEach(heads: seq<CodeUnit>, tails: set<JsString>, i: nat, t: JsString)
    requires i < |heads| && t in tails
    ensures [heads[i]] + t in PrependEach(heads, tails)
  {
    if i > 0 {
      MemberOfPrependEach(heads[1..], tails, i - 1, t);
    }
  }

  /** The space of hex strings of length `n` has at most 16^n members. */
  lemma {:induction false} HexStringsCard(n: nat)
    ensures |HexStrings(n)| <= Pow(16, n)
  {
    if n > 0 {
      var shorter := HexStrings(n - 1);
      HexStringsCard(n - 1);
      PrependEachCard(HexDigits, shorter);
      assert |HexDigits| == 16;
      calc {
        |HexStrings(n)|;
        <= 16 * |shorter|;
        <= 16 * Pow(16, n - 1);
        == Pow(16, n);
      }
    }
  }

  /** Every hex string lies in the space for its length. */
  lemma {:induction false} HexStringsComplete(s: JsString)
    requires IsHexString(s)
    ensures s in HexStrings(|s|)
  {
    if s != [] {
      HexStringsComplete(s[1..]);
      var i := if s[0] <= '9' as int then s[0] - '0' as int else s[0] - 'a' as int + 10;
      assert HexDigits[i] == s[0];
      MemberOfPrependEach(HexDigits, HexStrings(|s| - 1), i, s[1..]);
      assert [s[0]] + s[1..] == s;
    }
  }

  /** A set of hex strings of one length `n` has at most 16^n members. */
  lemma HexSetBound(digests: set<JsString>, n: nat)
    requires forall d :: d in digests ==> |d| == n && IsHexString(d)
    ensures |digests| <= Pow(16, n)
  {
    forall d | d in digests ensures d in HexStrings(n) {
      HexStringsComplete(d);
    }
    SubsetCard(digests, HexStrings(n));
    HexStringsCard(n);
  }
}
