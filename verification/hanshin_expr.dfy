/** The expression side of the Hanshin store (`hanshin.js`): which texts
    count as "33-4" expressions (`isValid`) and which of two expressions is
    preferred (`compare`).

    Arithmetic is done by an external evaluator (mathjs with 64-digit big
    numbers). It is not modelled: it enters as a parameter `eval` that says,
    for each text, whether evaluation throws, yields a non-integer, or yields
    an integer. */
module HanshinExpr {
  import opened Common

  /** What the external evaluator makes of a text: `math.eval` throws, or
      its result is not an integer once converted with `math.number`, or it
      is the integer `n`. */
  datatype EvalOutcome = Throws | NotInteger | Integer(n: int)

  /** The evaluator oracle. */
  type Evaluator = string -> EvalOutcome

  // ---------------------------------------------------------------------
  // isValid
  // ---------------------------------------------------------------------

  /** The character class `[34\+\-\*\/\(\)\!\(sqrt)]`. Being a class, it
      admits the single letters s, q, r and t, not the word "sqrt". */
  predicate ExprChar(c: char) {
    c in "34+-*/()!sqrt"
  }

  /** The anchored test `^[…]+$`: non-empty, every character in the class. */
  predicate InCharset(s: string) {
    |s| > 0 && forall i :: 0 <= i < |s| ==> ExprChar(s[i])
  }

  /** The digit template the 3s and 4s must follow. */
  const Cycle: string := "334"

  predicate IsDigit34(c: char) {
    c == '3' || c == '4'
  }

  /** The scanning loop: `count` is the position in the template; a 3 or 4
      that differs from the template entry stops the scan (`None`),
      otherwise the position advances modulo 3. Returns the final position. */
  function Scan(s: string, count: nat): (r: Option<nat>)
    requires count < 3
    ensures r.Some? ==> r.value < 3
    decreases |s|
  {
    if s == [] then Some(count)
    else if IsDigit34(s[0]) then
      if s[0] != Cycle[count] then None else Scan(s[1..], (count + 1) % 3)
    else Scan(s[1..], count)
  }

  /** `isValid`: the character class, a scan that ends back at position 0,
      and an evaluation that does not throw. */
  predicate IsValid(s: string, eval: Evaluator) {
    InCharset(s) && Scan(s, 0) == Some(0) && !eval(s).Throws?
  }

  /** The 3s and 4s of `s`, in order. */
  function Digits34(s: string): (d: string)
    ensures |d| <= |s|
    ensures forall i :: 0 <= i < |d| ==> IsDigit34(d[i])
  {
    if s == [] then []
    else if IsDigit34(s[0]) then [s[0]] + Digits34(s[1..])
    else Digits34(s[1..])
  }

  /** `d` follows the template from position `c` on. */
  predicate FollowsCycleFrom(d: string, c: nat) {
    forall k :: 0 <= k < |d| ==> d[k] == Cycle[(c + k) % 3]
  }

  /** The declarative reading of the digit rule: the k-th digit is
      "334"[k mod 3], and the digits make up whole cycles. */
  predicate WholeCycles(d: string) {
    FollowsCycleFrom(d, 0) && |d| % 3 == 0
  }

  /** Following the template from `c` means: the first digit is the
      template entry at `c`, and the rest follow it from the next position. */
  lemma {:induction false} FollowsCycleCons(a: char, d: string, c: nat)
    requires c < 3
    ensures FollowsCycleFrom([a] + d, c) <==> a == Cycle[c] && FollowsCycleFrom(d, (c + 1) % 3)
  {
    var e := [a] + d;
    var c' := (c + 1) % 3;
    if FollowsCycleFrom(e, c) {
      assert e[0] == Cycle[(c + 0) % 3];
      forall k | 0 <= k < |d| ensures d[k] == Cycle[(c' + k) % 3] {
        assert e[k + 1] == Cycle[(c + (k + 1)) % 3];
        assert (c' + k) % 3 == (c + (k + 1)) % 3;
      }
    }
    if a == Cycle[c] && FollowsCycleFrom(d, c') {
      forall k | 0 <= k < |e| ensures e[k] == Cycle[(c + k) % 3] {
        if k > 0 {
          assert e[k] == d[k - 1];
          assert (c' + (k - 1)) % 3 == (c + k) % 3;
        }
      }
    }
  }

  /** The scan succeeds from position `c` exactly when the digits follow the
      template from `c`, and it then stops at `c` plus the number of digits,
      modulo 3. */
  lemma {:induction false} ScanFollowsCycle(s: string, c: nat)
    requires c < 3
    ensures Scan(s, c).Some? <==> FollowsCycleFrom(Digits34(s), c)
    ensures Scan(s, c).Some? ==> Scan(s, c).value == (c + |Digits34(s)|) % 3
    decreases |s|
  {
    if s != [] {
      if IsDigit34(s[0]) {
        ScanFollowsCycle(s[1..], (c + 1) % 3);
        FollowsCycleCons(s[0], Digits34(s[1..]), c);
      } else {
        ScanFollowsCycle(s[1..], c);
      }
    }
  }

  /** The scan of `isValid` accepts exactly the texts whose 3s and 4s are
      whole 3-3-4 cycles. */
  lemma {:induction false} ScanAcceptsWholeCycles(s: string)
    ensures Scan(s, 0) == Some(0) <==> WholeCycles(Digits34(s))
  {
    ScanFollowsCycle(s, 0);
  }

  /** `isValid` in declarative terms: the character class, whole 3-3-4
      cycles, and an evaluation that does not throw. */
  lemma {:induction false} IsValidSpec(s: string, eval: Evaluator)
    ensures IsValid(s, eval) <==> InCharset(s) && WholeCycles(Digits34(s)) && !eval(s).Throws?
  {
    ScanAcceptsWholeCycles(s);
  }

  /** "334" and "334334" pass the digit scan; "343" fails on its second
      digit and "33" stops in the middle of a cycle. */
  lemma ScanExamples()
    ensures Scan("334", 0) == Some(0)
    ensures Scan("334334", 0) == Some(0)
    ensures Scan("343", 0).None?
    ensures Scan("33", 0) == Some(2)
    ensures Scan("3+3*4", 0) == Some(0)
  {
  }

  /** A text made only of 3s and 4s is its own digit sequence. */
  lemma {:induction false} Digits34AllDigits(s: string)
    requires forall i :: 0 <= i < |s| ==> IsDigit34(s[i])
    ensures Digits34(s) == s
    decreases |s|
  {
    if s != [] {
      Digits34AllDigits(s[1..]);
    }
  }

  /** No text of one or two characters passes `isValid`: either a character
      falls outside the class with digits 3 and 4, or the digits cannot
      make up a whole cycle. */
  lemma {:induction false} ShortDigitTextInvalid(s: string, eval: Evaluator)
    requires 1 <= |s| <= 2
    requires forall i :: 0 <= i < |s| ==> '0' <= s[i] <= '9'
    ensures !IsValid(s, eval)
  {
    IsValidSpec(s, eval);
    if InCharset(s) {
      forall i | 0 <= i < |s| ensures IsDigit34(s[i]) {
        assert ExprChar(s[i]);
      }
      Digits34AllDigits(s);
    }
  }

  // ---------------------------------------------------------------------
  // compare
  // ---------------------------------------------------------------------

  /** Occurrences of the character `c` (`s.match(/c/g).length`). */
  function CountChar(s: string, c: char): (n: nat)
    ensures n <= |s|
  {
    if s == [] then 0 else (if s[0] == c then 1 else 0) + CountChar(s[1..], c)
  }

  /** Occurrences of "sqrt" found scanning left to right without overlap
      (`s.match(/sqrt/g).length`). */
  function CountSqrt(s: string): nat
    decreases |s|
  {
    if StartsWith(s, "sqrt") then 1 + CountSqrt(s[4..])
    else if s == [] then 0
    else CountSqrt(s[1..])
  }

  /** Every counted "sqrt" uses four characters of its own. */
  lemma {:induction false} CountSqrtBound(s: string)
    ensures 4 * CountSqrt(s) <= |s|
    decreases |s|
  {
    if StartsWith(s, "sqrt") {
      CountSqrtBound(s[4..]);
    } else if s != [] {
      CountSqrtBound(s[1..]);
    }
  }

  /** Tier 1: the number of 4s. */
  function Fours(s: string): nat {
    CountChar(s, '4')
  }

  /** Tier 2: the number of "sqrt" plus the number of "!". */
  function Specials(s: string): nat {
    CountSqrt(s) + CountChar(s, '!')
  }

  /** Tier 3: the length with each "sqrt" counted as one character. */
  function EffectiveLength(s: string): (n: nat)
    ensures n >= |s| - 3 * CountSqrt(s)
    ensures n <= |s|
  {
    CountSqrtBound(s);
    |s| - 3 * CountSqrt(s)
  }

  /** `compare(l, r)`: is `l` strictly preferred to `r`? The first tier on
      which they differ decides; if all three agree the answer is false. */
  predicate Compare(l: string, r: string) {
    if Fours(l) != Fours(r) then Fours(l) < Fours(r)
    else if Specials(l) != Specials(r) then Specials(l) < Specials(r)
    else EffectiveLength(l) < EffectiveLength(r)
  }

  /** Three-way outcome of comparing two expressions. */
  datatype Ordering = Less | Equal | Greater

  /** Three-way comparison of two numbers. */
  function CompareNat(a: nat, b: nat): Ordering {
    if a < b then Less else if a == b then Equal else Greater
  }

  /** Lexicographic combination: the first non-`Equal` outcome decides. */
  function Then(first: Ordering, rest: Ordering): Ordering {
    if first == Equal then rest else first
  }

  /** An independent three-way formulation of the preference: the three
      tiers compared lexicographically. */
  function Rank(l: string, r: string): Ordering {
    Then(CompareNat(Fours(l), Fours(r)),
      Then(CompareNat(Specials(l), Specials(r)),
        CompareNat(EffectiveLength(l), EffectiveLength(r))))
  }

  /** `compare` answers true exactly when the three-way ranking says
      `Less`, and the ranking is antisymmetric. */
  lemma {:induction false} CompareIsRankLess(l: string, r: string)
    ensures Compare(l, r) <==> Rank(l, r) == Less
    ensures Rank(l, r) == Less <==> Rank(r, l) == Greater
    ensures Rank(l, r) == Equal <==> Rank(r, l) == Equal
  {
  }

  /** No expression is strictly better than itself. */
  lemma {:induction false} CompareIrreflexive(e: string)
    ensures !Compare(e, e)
  {
  }

  /** Strict preference never holds both ways. */
  lemma {:induction false} CompareAsymmetric(l: string, r: string)
    ensures Compare(l, r) ==> !Compare(r, l)
  {
  }

  /** Strict preference is transitive. */
  lemma {:induction false} CompareTransitive(a: string, b: string, c: string)
    ensures Compare(a, b) && Compare(b, c) ==> Compare(a, c)
  {
  }

  /** Fewer 4s wins before anything else is looked at: "334" beats
      "3+3+4+4". */
  lemma CompareExample()
    ensures Compare("334", "3+3+4+4")
    ensures !Compare("3+3+4+4", "334")
  {
    assert Fours("334") == 1;
    assert Fours("3+3+4+4") == 2;
  }
}
