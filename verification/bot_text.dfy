/** The text handling of `bot.js` around the Hanshin store: full-width
    normalisation (`repl_tbl`), `expr_to_v`, `str_to_hanshin`, and the
    FizzBuzz reply, which shows each non-Fizz/Buzz number through
    `str_to_hanshin`. */
module BotText {
  import opened Common
  import opened HanshinExpr
  import opened HanshinStore

  // ---------------------------------------------------------------------
  // Full-width to half-width normalisation
  // ---------------------------------------------------------------------

  /** `repl_tbl`: full-width digits and operators, the multiplication and
      division signs, and the radical sign. */
  const ReplTable: map<char, string> := map[
    '\U{FF10}' := "0", '\U{FF11}' := "1", '\U{FF12}' := "2", '\U{FF13}' := "3", '\U{FF14}' := "4",
    '\U{FF15}' := "5", '\U{FF16}' := "6", '\U{FF17}' := "7", '\U{FF18}' := "8", '\U{FF19}' := "9",
    '\U{FF0B}' := "+", '\U{FF0D}' := "-", '\U{00D7}' := "*", '\U{00F7}' := "/", '\U{FF0A}' := "*",
    '\U{FF01}' := "!", '\U{221A}' := "sqrt"]

  /** The lookup `repl_tbl[ch]` written as a case analysis. */
  function NormalizeChar(c: char): string {
    if '\U{FF10}' <= c <= '\U{FF19}' then [DigitChar(c as int - 0xFF10)]
    else if c == '\U{FF0B}' then "+"
    else if c == '\U{FF0D}' then "-"
    else if c == '\U{00D7}' || c == '\U{FF0A}' then "*"
    else if c == '\U{00F7}' then "/"
    else if c == '\U{FF01}' then "!"
    else if c == '\U{221A}' then "sqrt"
    else [c]
  }

  /** The case analysis is the table: a character in the table becomes its
      entry, any other character stays. */
  lemma NormalizeCharIsTable(c: char)
    ensures c in ReplTable ==> NormalizeChar(c) == ReplTable[c]
    ensures c !in ReplTable ==> NormalizeChar(c) == [c]
  {
    if '\U{FF10}' <= c <= '\U{FF19}' {
      assert c in ReplTable;
    }
  }

  /** A character that normalisation leaves alone. */
  predicate Plain(c: char) {
    NormalizeChar(c) == [c]
  }

  /** Characters below U+0080 are never replaced. */
  predicate IsAscii(c: char) {
    c < '\U{0080}'
  }

  /** Every replacement consists of ASCII characters. */
  lemma NormalizeCharAscii(c: char)
    requires !Plain(c)
    ensures forall i :: 0 <= i < |NormalizeChar(c)| ==> IsAscii(NormalizeChar(c)[i])
  {
  }

  /** `ret.split("").map(...).join("")` (bot.js:73-76). */
  function Normalize(s: string): string
    decreases |s|
  {
    if s == [] then [] else NormalizeChar(s[0]) + Normalize(s[1..])
  }

  /** Normalisation works character by character, so it distributes over
      concatenation. */
  lemma {:induction false} NormalizeAppend(a: string, b: string)
    ensures Normalize(a + b) == Normalize(a) + Normalize(b)
    decreases |a|
  {
    if a != [] {
      assert (a + b)[0] == a[0];
      assert (a + b)[1..] == a[1..] + b;
      NormalizeAppend(a[1..], b);
    } else {
      assert a + b == b;
    }
  }

  /** Text without table characters is left as it is. */
  lemma {:induction false} NormalizeKeeps(s: string)
    requires forall i :: 0 <= i < |s| ==> Plain(s[i])
    ensures Normalize(s) == s
    decreases |s|
  {
    if s != [] {
      NormalizeKeeps(s[1..]);
      assert [s[0]] + s[1..] == s;
    }
  }

  /** After normalisation no table character is left. */
  lemma {:induction false} NormalizeClean(s: string)
    ensures forall i :: 0 <= i < |Normalize(s)| ==> Plain(Normalize(s)[i])
    decreases |s|
  {
    if s != [] {
      NormalizeClean(s[1..]);
      var h := NormalizeChar(s[0]);
      var t := Normalize(s[1..]);
      if !Plain(s[0]) {
        NormalizeCharAscii(s[0]);
      }
      forall i | 0 <= i < |h + t| ensures Plain((h + t)[i]) {
        if i < |h| {
          assert (h + t)[i] == h[i];
        } else {
          assert (h + t)[i] == t[i - |h|];
        }
      }
    }
  }

  /** Normalising twice is normalising once. */
  lemma {:induction false} NormalizeIdempotent(s: string)
    ensures Normalize(Normalize(s)) == Normalize(s)
  {
    NormalizeClean(s);
    NormalizeKeeps(Normalize(s));
  }

  /** Full-width input becomes the plain expression. */
  lemma NormalizeExamples()
    ensures Normalize("\U{FF13}\U{FF13}\U{FF0D}\U{FF14}") == "33-4"
    ensures Normalize("\U{FF13}\U{FF13}\U{FF14}") == "334"
    ensures Normalize("\U{221A}\U{FF14}") == "sqrt4"
    ensures Normalize("3\U{00D7}4") == "3*4"
  {
    // Each example is settled before the next one is unfolded.
    assert Normalize("\U{FF13}\U{FF13}\U{FF0D}\U{FF14}") == "33-4" by { }
    assert Normalize("\U{FF13}\U{FF13}\U{FF14}") == "334" by { }
    assert Normalize("\U{221A}\U{FF14}") == "sqrt4" by { }
  }

  // ---------------------------------------------------------------------
  // expr_to_v and str_to_hanshin
  // ---------------------------------------------------------------------

  /** The character class of bot.js:78, `[0-9\+\-\*\/\(\)\!\(sqrt)]`:
      every digit, the operators, and the single letters s, q, r, t. */
  predicate TextChar(c: char) {
    ('0' <= c <= '9') || c in "+-*/()!sqrt"
  }

  /** The anchored match `^[…]+$` of bot.js:78 succeeds. */
  predicate IsExprText(s: string) {
    |s| > 0 && forall i :: 0 <= i < |s| ==> TextChar(s[i])
  }

  /** Whatever passes `isValid` also passes the wider class of bot.js:78. */
  lemma {:induction false} ValidIsExprText(s: string, eval: Evaluator)
    requires IsValid(s, eval)
    ensures IsExprText(s)
  {
    forall i | 0 <= i < |s| ensures TextChar(s[i]) {
      assert ExprChar(s[i]);
    }
  }

  /** `expr_to_v(expr)` (bot.js:113-127): offers the expression to the
      store without `force`, then evaluates it on its own account. The
      value is there whether or not the store took the expression; after a
      valid expression the store always holds an entry for its value. */
  function ExprToValue(db: Db, expr: string, eval: Evaluator): (r: SetResult)
    ensures r.value.Some? <==> eval(expr).Integer?
    ensures r.value.Some? ==> eval(expr) == Integer(r.value.value)
    ensures !IsValid(expr, eval) ==> r.db == db
    ensures db.hash.Keys <= r.db.hash.Keys && r.db.winner == db.winner
    ensures IsValid(expr, eval) && r.value.Some? ==> r.value.value in r.db.hash
    ensures IsValid(expr, eval) && r.value.Some? ==>
              r.db.hash[r.value.value] ==
                (if r.value.value in db.hash && !Compare(expr, db.hash[r.value.value])
                 then db.hash[r.value.value] else expr)
    ensures forall n :: n in db.hash && eval(expr) != Integer(n) ==> n in r.db.hash && r.db.hash[n] == db.hash[n]
    ensures r.db.hash.Keys <= db.hash.Keys + (if IsValid(expr, eval) && r.value.Some? then {r.value.value} else {})
    ensures !(IsValid(expr, eval) && r.value.Some?) ==> r.db == db
  {
    var stored := Set(db, expr, false, eval);
    SetResult(stored.db, Value(expr, eval))
  }

  /** After `expr_to_v` offers a valid integer-valued expression, the entry
      for its value is one the expression does not beat: the expression
      itself, or an earlier entry at least as good. Offering it again
      changes nothing. */
  lemma {:induction false} ExprToValueKeepsBest(db: Db, expr: string, eval: Evaluator)
    requires IsValid(expr, eval) && eval(expr).Integer?
    ensures var r := ExprToValue(db, expr, eval);
            var v := eval(expr).n;
            && v in r.db.hash
            && !Compare(expr, r.db.hash[v])
            && (r.db.hash[v] == expr || (v in db.hash && r.db.hash[v] == db.hash[v]))
            && ExprToValue(r.db, expr, eval) == r
  {
    CompareIrreflexive(expr);
    SetIdempotent(db, expr, eval);
  }

  /** The text shown for a value that is not itself a Hanshin expression:
      its stored expression with the first "sqrt" written as "√", or the
      value between two ":no_good:" marks when nothing is stored. */
  function Shown(db: Db, n: int): string {
    if n in db.hash then ReplaceFirst(db.hash[n], "sqrt", "\U{221A}")
    else ":no_good: " + Decimal(n) + " :no_good:"
  }

  /** The reply text (or none) with the store after the call. */
  datatype Reply = Reply(db: Db, text: Option<string>)

  /** `str_to_hanshin(str)` (bot.js:69-93): normalise, test the character
      class, offer the text to the store and evaluate it, then answer with
      the value, the stored expression, or the ":no_good:" message. */
  function StrToHanshin(db: Db, str: string, eval: Evaluator): Reply {
    var ret := Normalize(str);
    if !IsExprText(ret) then Reply(db, None)
    else
      var e := ExprToValue(db, ret, eval);
      var ishan := IsValid(ret, eval);
      match e.value
      case None => Reply(e.db, None)
      case Some(v) =>
        match Get(e.db, v)
        case None => Reply(e.db, Some(":no_good: " + Decimal(v) + " :no_good:"))
        case Some(han) =>
          Reply(e.db, Some(if ishan then Decimal(v) else ReplaceFirst(han, "sqrt", "\U{221A}")))
  }

  /** What `str_to_hanshin` answers. Text outside the character class gets
      no answer and leaves the store alone; so does text without an integer
      value. A Hanshin expression with an integer value is answered with
      that value. Any other text with an integer value leaves the store
      alone and is answered with the expression stored for the value (first
      "sqrt" as "√"), or with the value between ":no_good:" marks. */
  lemma {:induction false} StrToHanshinSpec(db: Db, str: string, eval: Evaluator)
    ensures var ret := Normalize(str);
            var r := StrToHanshin(db, str, eval);
            && (!IsExprText(ret) ==> r == Reply(db, None))
            && (IsExprText(ret) ==> r.db == Set(db, ret, false, eval).db)
            && (r.text.None? <==> !IsExprText(ret) || !eval(ret).Integer?)
            && (!IsValid(ret, eval) ==> r.db == db)
            && (IsValid(ret, eval) && eval(ret).Integer? ==> r.text == Some(Decimal(eval(ret).n)))
            && (IsExprText(ret) && !IsValid(ret, eval) && eval(ret).Integer? ==>
                  r.text == Some(Shown(db, eval(ret).n)))
  {
    var ret := Normalize(str);
    if IsValid(ret, eval) {
      ValidIsExprText(ret, eval);
    }
  }

  /** `str_to_hanshin` keeps the store consistent. */
  lemma {:induction false} StrToHanshinPreservesConsistent(db: Db, str: string, eval: Evaluator)
    requires Consistent(db, eval)
    ensures Consistent(StrToHanshin(db, str, eval).db, eval)
  {
    SetPreservesConsistent(db, Normalize(str), false, eval);
  }

  /** Some position of `s` starts the leftmost occurrence of `p`. */
  lemma {:induction false} LeftmostOccurrence(s: string, p: string) returns (i: nat)
    requires Contains(s, p)
    ensures i <= |s| && StartsWith(s[i..], p)
    ensures forall j :: 0 <= j < i ==> !StartsWith(s[j..], p)
    decreases |s|
  {
    if StartsWith(s, p) {
      assert s[0..] == s;
      i := 0;
    } else {
      var k :| 0 <= k <= |s| && StartsWith(s[k..], p);
      assert k != 0 by {
        assert s[0..] == s;
      }
      assert s[1..][k - 1..] == s[k..];
      var i' := LeftmostOccurrence(s[1..], p);
      i := i' + 1;
      assert s[i..] == s[1..][i'..];
      forall j | 0 <= j < i ensures !StartsWith(s[j..], p) {
        if j == 0 {
          assert s[0..] == s;
        } else {
          assert s[j..] == s[1..][j - 1..];
        }
      }
    }
  }

  /** Texts of the character class of `isValid` are left alone by
      normalisation. */
  lemma {:induction false} ExprTextPlain(h: string)
    requires forall i :: 0 <= i < |h| ==> ExprChar(h[i])
    ensures forall i :: 0 <= i < |h| ==> Plain(h[i])
  {
    forall i | 0 <= i < |h| ensures Plain(h[i]) {
      assert ExprChar(h[i]);
    }
  }

  /** The radical sign reads as "sqrt". */
  lemma NormalizeRadical()
    ensures Normalize("\U{221A}") == "sqrt"
  {
    assert "\U{221A}"[1..] == [];
  }

  /** A slice of a text made only of characters normalisation keeps is
      kept as it is. */
  lemma {:induction false} PlainSliceKept(h: string, lo: nat, hi: nat)
    requires lo <= hi <= |h|
    requires forall k :: 0 <= k < |h| ==> Plain(h[k])
    ensures Normalize(h[lo..hi]) == h[lo..hi]
  {
    var a := h[lo..hi];
    forall k | 0 <= k < |a| ensures Plain(a[k]) {
      assert a[k] == h[lo + k];
    }
    NormalizeKeeps(a);
  }

  /** Writing "√" between two texts normalisation keeps reads back as
      "sqrt" between them. */
  lemma {:induction false} RadicalSplice(a: string, b: string)
    requires Normalize(a) == a && Normalize(b) == b
    ensures Normalize(a + "\U{221A}" + b) == a + "sqrt" + b
  {
    NormalizeAppend(a + "\U{221A}", b);
    NormalizeAppend(a, "\U{221A}");
    NormalizeRadical();
  }

  /** The first "sqrt", at `i`, written "√" reads back as "sqrt" when the
      text around it is kept by normalisation. */
  lemma {:induction false} RadicalAt(h: string, i: nat)
    requires i + 4 <= |h| && h[i..i + 4] == "sqrt"
    requires ReplaceFirst(h, "sqrt", "\U{221A}") == h[..i] + "\U{221A}" + h[i + 4..]
    requires Normalize(h[..i]) == h[..i] && Normalize(h[i + 4..]) == h[i + 4..]
    ensures Normalize(ReplaceFirst(h, "sqrt", "\U{221A}")) == h
  {
    var a, b := h[..i], h[i + 4..];
    assert Normalize(a + "\U{221A}" + b) == a + "sqrt" + b by {
      RadicalSplice(a, b);
    }
    assert a + "sqrt" + b == h by {
      assert a + h[i..i + 4] + b == h;
    }
  }

  /** A text of plain characters with its first "sqrt" written "√" reads
      back as itself. */
  lemma {:induction false} PlainRoundTrip(h: string)
    requires forall k :: 0 <= k < |h| ==> Plain(h[k])
    ensures Normalize(ReplaceFirst(h, "sqrt", "\U{221A}")) == h
  {
    if Contains(h, "sqrt") {
      var i := LeftmostOccurrence(h, "sqrt");
      assert h[i..i + 4] == h[i..][..4];
      ReplaceFirstAt(h, "sqrt", "\U{221A}", i);
      assert Normalize(h[..i]) == h[..i] by {
        PlainSliceKept(h, 0, i);
        assert h[0..i] == h[..i];
      }
      assert Normalize(h[i + 4..]) == h[i + 4..] by {
        PlainSliceKept(h, i + 4, |h|);
        assert h[i + 4..|h|] == h[i + 4..];
      }
      RadicalAt(h, i);
    } else {
      ReplaceFirstAbsent(h, "sqrt", "\U{221A}");
      NormalizeKeeps(h);
    }
  }

  /** Reading back a shown expression: normalising the displayed text of a
      stored expression (first "sqrt" written "√") gives the stored
      expression again. */
  lemma DisplayRoundTrip(db: Db, n: int, eval: Evaluator)
    requires Consistent(db, eval)
    requires n in db.hash
    ensures Normalize(ReplaceFirst(db.hash[n], "sqrt", "\U{221A}")) == db.hash[n]
  {
    var h := db.hash[n];
    assert InCharset(h);
    ExprTextPlain(h);
    PlainRoundTrip(h);
  }

  /** The decimal text of 334. */
  lemma Decimal334()
    ensures Decimal(334) == "334"
  {
    assert Digits(334) == Digits(33) + "4";
    assert Digits(33) == Digits(3) + "3";
  }

  /** "334" is a Hanshin expression as soon as it evaluates. */
  lemma Valid334(eval: Evaluator)
    requires eval("334") == Integer(334)
    ensures IsValid("334", eval)
  {
    assert Scan("334", 0) == Some(0);
    assert InCharset("334");
  }

  /** From the initial table, full-width "３３４" is answered with "334". */
  lemma StrToHanshinExample(eval: Evaluator)
    requires eval("334") == Integer(334)
    ensures StrToHanshin(Initial, "\U{FF13}\U{FF13}\U{FF14}", eval) == Reply(Initial, Some("334"))
  {
    assert Normalize("\U{FF13}\U{FF13}\U{FF14}") == "334" by { NormalizeExamples(); }
    assert IsValid("334", eval) && IsExprText("334") by {
      Valid334(eval);
      ValidIsExprText("334", eval);
    }
    var e := ExprToValue(Initial, "334", eval);
    assert e.value == Some(334) && e.db == Initial by {
      CompareIrreflexive("334");
      assert Set(Initial, "334", false, eval).db == Initial;
    }
    assert Get(Initial, 334) == Some("334");
    Decimal334();
  }

  // ---------------------------------------------------------------------
  // FizzBuzz
  // ---------------------------------------------------------------------

  /** One reply line with the store after it. */
  datatype Line = Line(db: Db, text: string)

  /** The line for `n` (bot.js:258, `n` counted from 1): "Fizz" for
      multiples of 3, then "Buzz" for multiples of 5; if both are absent the
      number goes through `str_to_hanshin`, and a `null` answer joins as "". */
  function FizzBuzzLine(db: Db, n: int, eval: Evaluator): Line {
    var word := (if n % 3 == 0 then "Fizz" else "") + (if n % 5 == 0 then "Buzz" else "");
    if word != "" then Line(db, word)
    else
      var h := StrToHanshin(db, Decimal(n), eval);
      Line(h.db, h.text.GetOr(""))
  }

  /** The lines for `lo` through `hi`, the store threaded through them. */
  datatype Lines = Lines(db: Db, lines: seq<string>)

  /** The `map` of bot.js:258 over `lo` through `hi`, in order; each line
      sees the store the previous one left. */
  function FizzBuzzLines(db: Db, lo: int, hi: int, eval: Evaluator): (r: Lines)
    ensures lo <= hi + 1 ==> |r.lines| == hi - lo + 1
    decreases hi - lo
  {
    if lo > hi then Lines(db, [])
    else
      var line := FizzBuzzLine(db, lo, eval);
      var rest := FizzBuzzLines(line.db, lo + 1, hi, eval);
      Lines(rest.db, [line.text] + rest.lines)
  }

  /** bot.js:257-258 for an integer `v`: at most 100 lines, numbered from
      1; a negative `v` makes `Array(v)` throw, so there is no reply. */
  function FizzBuzz(db: Db, v: int, eval: Evaluator): (r: Reply)
    ensures r.text.None? <==> v < 0
    ensures v < 0 ==> r.db == db
  {
    var cap := if v < 100 then v else 100;
    if cap < 0 then Reply(db, None)
    else
      var ls := FizzBuzzLines(db, 1, cap, eval);
      Reply(ls.db, Some(JoinWith(ls.lines, "\n")))
  }

  /** The classic reading of a line: "FizzBuzz" for multiples of 15, then
      "Fizz" and "Buzz", otherwise the number as `str_to_hanshin` shows it
      ("" when it shows nothing). */
  function Expected(db: Db, n: int, eval: Evaluator): string {
    if n % 15 == 0 then "FizzBuzz"
    else if n % 3 == 0 then "Fizz"
    else if n % 5 == 0 then "Buzz"
    else StrToHanshin(db, Decimal(n), eval).text.GetOr("")
  }

  /** The classic readings of `lo` through `hi`, in order. */
  function ExpectedLines(db: Db, lo: int, hi: int, eval: Evaluator): (ls: seq<string>)
    ensures lo <= hi + 1 ==> |ls| == hi - lo + 1
    decreases hi - lo
  {
    if lo > hi then [] else [Expected(db, lo, eval)] + ExpectedLines(db, lo + 1, hi, eval)
  }

  /** ASCII characters are left alone by normalisation. */
  lemma AsciiPlain(c: char)
    requires IsAscii(c)
    ensures Plain(c)
  {
  }

  /** A text of ASCII digits is left alone by normalisation. */
  lemma {:induction false} DigitTextPlain(s: string)
    requires forall i :: 0 <= i < |s| ==> '0' <= s[i] <= '9'
    ensures Normalize(s) == s
  {
    forall i | 0 <= i < |s| ensures Plain(s[i]) {
      AsciiPlain(s[i]);
    }
    NormalizeKeeps(s);
  }

  /** The decimal text of 1 … 100 is never a Hanshin expression: up to 99
      it has at most two digits, and "100" holds a 1. */
  lemma SmallNumberInvalid(n: int, eval: Evaluator)
    requires 1 <= n <= 100
    ensures Normalize(Decimal(n)) == Decimal(n)
    ensures !IsValid(Decimal(n), eval)
  {
    var s := Decimal(n);
    assert forall i :: 0 <= i < |s| ==> '0' <= s[i] <= '9' by {
      DigitsRoundTrip(n);
    }
    DigitTextPlain(s);
    if n < 100 {
      assert 1 <= |s| <= 2 by {
        DigitsRoundTrip(n);
        DigitsLength(n);
      }
      ShortDigitTextInvalid(s, eval);
    } else {
      assert s == "100" by {
        DigitsLength(n);
      }
      assert !InCharset(s) by {
        assert !ExprChar(s[0]);
      }
    }
  }

  /** Showing a number from 1 to 100 leaves the store unchanged. */
  lemma SmallNumberLeavesStore(db: Db, n: int, eval: Evaluator)
    requires 1 <= n <= 100
    ensures StrToHanshin(db, Decimal(n), eval).db == db
  {
    SmallNumberInvalid(n, eval);
    StrToHanshinSpec(db, Decimal(n), eval);
  }

  /** Reducing modulo 15 first does not change the remainder modulo 3. */
  lemma Mod15Mod3(n: int)
    ensures n % 3 == (n % 15) % 3
  {
    assert n == 3 * (5 * (n / 15)) + n % 15;
  }

  /** Reducing modulo 15 first does not change the remainder modulo 5. */
  lemma Mod15Mod5(n: int)
    ensures n % 5 == (n % 15) % 5
  {
    assert n == 5 * (3 * (n / 15)) + n % 15;
  }

  /** The multiples of 15 are exactly the common multiples of 3 and 5, so
      "Fizz" followed by "Buzz" is "FizzBuzz" on exactly those lines. */
  lemma Mod15(n: int)
    ensures n % 15 == 0 <==> n % 3 == 0 && n % 5 == 0
  {
    Mod15Mod3(n);
    Mod15Mod5(n);
    var r := n % 15;
    assert r % 3 == 0 && r % 5 == 0 <==> r == 0;
  }

  /** Each line agrees with the classic reading and leaves the store as it
      was. */
  lemma FizzBuzzLineSpec(db: Db, n: int, eval: Evaluator)
    requires 1 <= n <= 100
    ensures FizzBuzzLine(db, n, eval) == Line(db, Expected(db, n, eval))
  {
    var word := (if n % 3 == 0 then "Fizz" else "") + (if n % 5 == 0 then "Buzz" else "");
    Mod15(n);
    if n % 3 != 0 && n % 5 != 0 {
      var h := StrToHanshin(db, Decimal(n), eval);
      assert h.db == db by {
        SmallNumberLeavesStore(db, n, eval);
      }
      assert word == "";
      assert FizzBuzzLine(db, n, eval) == Line(h.db, h.text.GetOr(""));
      assert Expected(db, n, eval) == h.text.GetOr("");
    } else {
      assert word == Expected(db, n, eval) && word != "";
    }
  }

  /** Lines `lo` through `hi` are the classic readings and leave the store
      as it was. */
  lemma {:induction false} FizzBuzzLinesSpec(db: Db, lo: int, hi: int, eval: Evaluator)
    requires 1 <= lo <= hi + 1 && hi <= 100
    decreases hi - lo
    ensures FizzBuzzLines(db, lo, hi, eval) == Lines(db, ExpectedLines(db, lo, hi, eval))
  {
    if lo <= hi {
      FizzBuzzLineSpec(db, lo, eval);
      FizzBuzzLinesSpec(db, lo + 1, hi, eval);
    }
  }

  /** The FizzBuzz reply for `v >= 0` is the classic reading of 1 through
      `min(v, 100)`, one per line, and the store is untouched. */
  lemma FizzBuzzSpec(db: Db, v: int, eval: Evaluator)
    requires v >= 0
    ensures var cap := if v < 100 then v else 100;
            FizzBuzz(db, v, eval) == Reply(db, Some(JoinWith(ExpectedLines(db, 1, cap, eval), "\n")))
  {
    var cap := if v < 100 then v else 100;
    FizzBuzzLinesSpec(db, 1, cap, eval);
  }

  /** The fifteenth line reads "FizzBuzz", the third "Fizz", the fifth
      "Buzz". */
  lemma FizzBuzzWords(db: Db, eval: Evaluator)
    ensures FizzBuzzLine(db, 15, eval).text == "FizzBuzz"
    ensures FizzBuzzLine(db, 3, eval).text == "Fizz"
    ensures FizzBuzzLine(db, 5, eval).text == "Buzz"
  {
  }
}
