/** Small shared vocabulary: an optional value, the string operations the
    JavaScript source uses (prefix tests, `String.prototype.replace` with a
    string pattern and with a global pattern, `join`), and the decimal
    rendering of an integer that `"" + n` produces. */
module Common {

  /** `null` in the source becomes `None`. */
  datatype Option<+T> = None | Some(value: T) {
    /** The value, or a default for `None`. */
    function GetOr(default: T): T {
      match this
      case Some(v) => v
      case None => default
    }
  }

  /** True when `s` begins with `p`. */
  predicate StartsWith(s: string, p: string) {
    |p| <= |s| && s[..|p|] == p
  }

  /** True when `p` occurs somewhere in `s`. */
  predicate Contains(s: string, p: string) {
    exists i :: 0 <= i <= |s| && StartsWith(s[i..], p)
  }

  /** `s.replace(p, rep)` with a string pattern: only the leftmost
      occurrence of `p` is replaced. */
  function ReplaceFirst(s: string, p: string, rep: string): (r: string)
    requires |p| > 0
    decreases |s|
  {
    if StartsWith(s, p) then rep + s[|p|..]
    else if s == [] then []
    else [s[0]] + ReplaceFirst(s[1..], p, rep)
  }

  /** `s.replace(/p/g, rep)` for a literal pattern: every occurrence found
      scanning left to right, non-overlapping, is replaced. */
  function ReplaceAll(s: string, p: string, rep: string): (r: string)
    requires |p| > 0
    decreases |s|
  {
    if StartsWith(s, p) then rep + ReplaceAll(s[|p|..], p, rep)
    else if s == [] then []
    else [s[0]] + ReplaceAll(s[1..], p, rep)
  }

  /** `pieces.join('')`. */
  function Join(pieces: seq<string>): string {
    if pieces == [] then [] else pieces[0] + Join(pieces[1..])
  }

  /** `lines.join(sep)`. */
  function JoinWith(lines: seq<string>, sep: string): string {
    if lines == [] then []
    else if |lines| == 1 then lines[0]
    else lines[0] + sep + JoinWith(lines[1..], sep)
  }

  /** Dropping a first element and then `j` more is dropping `j + 1`. */
  lemma {:induction false} DropShift(x: string, a: string, b: string, j: nat)
    requires a != [] && x == a + b && j <= |a| - 1 + |b|
    ensures (a[1..] + b)[j..] == x[j + 1..]
  {
    assert |(a[1..] + b)[j..]| == |x[j + 1..]|;
  }

  /** A non-empty text is its first character in front of the rest. */
  lemma {:induction false} ConsAppend(a: string, y: string)
    requires a != []
    ensures [a[0]] + (a[1..] + y) == a + y
  {
    assert a == [a[0]] + a[1..];
  }

  /** Joining a piece in front of a list of pieces. */
  lemma {:induction false} JoinCons(x: string, rest: seq<string>)
    ensures Join([x] + rest) == x + Join(rest)
  {
    assert ([x] + rest)[0] == x;
    assert ([x] + rest)[1..] == rest;
  }

  /** Gluing a character onto the first of several pieces glues it onto
      their join. */
  lemma {:induction false} JoinConsFirst(c: char, x: string, tl: seq<string>, rest: string)
    requires x + Join(tl) == rest
    ensures Join([[c] + x] + tl) == [c] + rest
  {
    JoinCons([c] + x, tl);
  }

  /** An empty piece and a split point in front of the rest of the pieces
      join back to the whole text. */
  lemma {:induction false} JoinSplitAt(s: string, k: nat, r: seq<string>)
    requires k <= |s| && Join(r) == s[k..]
    ensures Join(["", s[..k]] + r) == s
  {
    assert ["", s[..k]] + r == [""] + ([s[..k]] + r);
    JoinCons("", [s[..k]] + r);
    JoinCons(s[..k], r);
    assert "" + (s[..k] + s[k..]) == s;
  }

  /** A string in which `p` does not occur is left alone by `ReplaceFirst`. */
  lemma {:induction false} ReplaceFirstAbsent(s: string, p: string, rep: string)
    requires |p| > 0
    requires !Contains(s, p)
    ensures ReplaceFirst(s, p, rep) == s
    decreases |s|
  {
    assert s[0..] == s;
    if s != [] {
      assert !Contains(s[1..], p) by {
        forall k | 0 <= k <= |s[1..]| ensures !StartsWith(s[1..][k..], p) {
          assert s[1..][k..] == s[k + 1..];
        }
      }
      ReplaceFirstAbsent(s[1..], p, rep);
    }
  }

  /** A splice of the tail, with the first character put back, is the
      same splice of the whole text. */
  lemma {:induction false} ConsSplice(s: string, i: nat, n: nat, rep: string)
    requires 0 < i && i + n <= |s|
    ensures [s[0]] + (s[1..][..i - 1] + rep + s[1..][i - 1 + n..]) == s[..i] + rep + s[i + n..]
  {
    assert s[1..][..i - 1] == s[1..i] && s[1..][i - 1 + n..] == s[i + n..];
    assert [s[0]] + s[1..i] == s[..i];
  }

  /** When the leftmost occurrence of `p` starts at `i`, `ReplaceFirst`
      rewrites exactly that occurrence and keeps the text on both sides. */
  lemma {:induction false} ReplaceFirstAt(s: string, p: string, rep: string, i: nat)
    requires |p| > 0
    requires i <= |s| && StartsWith(s[i..], p)
    requires forall j :: 0 <= j < i ==> !StartsWith(s[j..], p)
    ensures ReplaceFirst(s, p, rep) == s[..i] + rep + s[i + |p|..]
    decreases i
  {
    if i == 0 {
      assert s[0..] == s && s[..0] == [];
    } else {
      var t := s[1..];
      assert ReplaceFirst(s, p, rep) == [s[0]] + ReplaceFirst(t, p, rep) by {
        assert s[0..] == s;
      }
      assert StartsWith(t[i - 1..], p) by {
        assert t[i - 1..] == s[i..];
      }
      assert forall j :: 0 <= j < i - 1 ==> !StartsWith(t[j..], p) by {
        forall j | 0 <= j < i - 1 ensures !StartsWith(t[j..], p) {
          assert t[j..] == s[j + 1..];
        }
      }
      ReplaceFirstAt(t, p, rep, i - 1);
      ConsSplice(s, i, |p|, rep);
    }
  }

  // ---------------------------------------------------------------------
  // Decimal rendering of integers (`"" + n` for a JavaScript integer)
  // ---------------------------------------------------------------------

  /** The ASCII digit for `d`. */
  function DigitChar(d: nat): char
    requires d < 10
  {
    "0123456789"[d]
  }

  /** Numeric value of an ASCII digit (0 for anything else). */
  function DigitValue(c: char): nat {
    if '0' <= c <= '9' then (c as int - '0' as int) as nat else 0
  }

  /** Decimal digits of a natural number, most significant first. */
  function Digits(n: nat): string
    decreases n
  {
    if n < 10 then [DigitChar(n)] else Digits(n / 10) + [DigitChar(n % 10)]
  }

  /** The text JavaScript produces for an integer-valued number, without
      the exponent form used from 10^21 on. */
  function Decimal(n: int): string {
    if n < 0 then "-" + Digits(-n) else Digits(n)
  }

  /** Reads a digit string back, least significant digit last. */
  function DigitsValue(s: string): nat
    decreases |s|
  {
    if s == [] then 0 else 10 * DigitsValue(s[..|s| - 1]) + DigitValue(s[|s| - 1])
  }

  /** Rendering is faithful: the digits read back as the number, and every
      character of the rendering is an ASCII digit. */
  lemma {:induction false} DigitsRoundTrip(n: nat)
    ensures DigitsValue(Digits(n)) == n
    ensures |Digits(n)| > 0
    ensures forall i :: 0 <= i < |Digits(n)| ==> '0' <= Digits(n)[i] <= '9'
    decreases n
  {
    var s := Digits(n);
    if n >= 10 {
      DigitsRoundTrip(n / 10);
      assert s[..|s| - 1] == Digits(n / 10);
      assert DigitValue(DigitChar(n % 10)) == n % 10;
    } else {
      assert DigitValue(DigitChar(n)) == n;
    }
  }

  /** Numbers below ten render as one digit, below a hundred as at most
      two. */
  lemma {:induction false} DigitsLength(n: nat)
    ensures n < 10 ==> |Digits(n)| == 1
    ensures n < 100 ==> |Digits(n)| <= 2
    ensures n == 100 ==> Digits(n) == "100"
  {
    if n >= 10 {
      DigitsLength(n / 10);
    }
    if n == 100 {
      assert Digits(10) == Digits(1) + [DigitChar(0)];
    }
  }
}
