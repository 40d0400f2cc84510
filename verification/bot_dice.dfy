/** `str_to_dice` of `bot.js`: every ":dicek:" becomes ":daisuke:", every
    ":daisuke:" outside a ":dicek:" becomes ":dicek:", and every dice word
    ("サイコロ", or "dice" in any mix of cases) becomes one die face drawn
    from the reproducible generator.

    The source does this with `split` on a pattern with a capturing group,
    a `map` over the pieces and a `join`; those steps are modelled as they
    are written (`Split`, `DiceMap`, `DicekMap`), and lemmas then relate
    them to a direct left-to-right rewriting (`Substitute`). */
module BotDice {
  import opened Common
  import opened XorShift

  /** The six die faces ⚀ … ⚅. */
  const DiceFaces: string := "\U{2680}\U{2681}\U{2682}\U{2683}\U{2684}\U{2685}"

  /** "サイコロ". */
  const Saikoro: string := "\U{30B5}\U{30A4}\U{30B3}\U{30ED}"

  const Dicek: string := ":dicek:"
  const Daisuke: string := ":daisuke:"

  /** The two split patterns: `/(:dicek:)/g` and
      `/(サイコロ|[dD][iI][cC][eE])/g`. */
  datatype Pattern = DicekPattern | DicePattern

  /** "dice" in any mix of upper and lower case at the start of `s`. */
  predicate StartsWithDiceLatin(s: string) {
    |s| >= 4 && s[0] in "dD" && s[1] in "iI" && s[2] in "cC" && s[3] in "eE"
  }

  /** Length of the match of `p` at the start of `s`, 0 when there is none. */
  function MatchLen(p: Pattern, s: string): (k: nat)
    ensures k <= |s|
    ensures k > 0 ==> |s| > 0
  {
    match p
    case DicekPattern => if StartsWith(s, Dicek) then 7 else 0
    case DicePattern => if StartsWith(s, Saikoro) || StartsWithDiceLatin(s) then 4 else 0
  }

  /** `re.test(s)` for an unanchored pattern: a match starts somewhere. */
  predicate HasMatch(s: string, p: Pattern) {
    exists j :: 0 <= j <= |s| && MatchLen(p, s[j..]) > 0
  }

  /** `s.split(re)` for a pattern with one capturing group: the text
      between matches alternating with the matches themselves, so the
      result always has odd length and starts and ends with text. */
  function Split(s: string, p: Pattern): (pieces: seq<string>)
    ensures |pieces| % 2 == 1
    decreases |s|
  {
    var k := MatchLen(p, s);
    if s == [] then [""]
    else if k > 0 then ["", s[..k]] + Split(s[k..], p)
    else
      var rest := Split(s[1..], p);
      [[s[0]] + rest[0]] + rest[1..]
  }

  /** bot.js:50-60, the inner `map` and `join`: a piece in which the dice
      pattern matches becomes one face `dice[rnd.nextInt(0, 6)]`, any other
      piece is kept. Draws happen left to right. */
  function DiceMap(pieces: seq<string>, g: Rng): Draw<string>
    decreases |pieces|
  {
    if pieces == [] then Draw("", g)
    else if HasMatch(pieces[0], DicePattern) then
      var d := NextInt(g, 0, 6);
      var rest := DiceMap(pieces[1..], d.rng);
      Draw([DiceFaces[d.value.value]] + rest.value, rest.rng)
    else
      var rest := DiceMap(pieces[1..], g);
      Draw(pieces[0] + rest.value, rest.rng)
  }

  /** bot.js:50-63: one piece of text outside any ":dicek:": dice words
      become faces, then every ":daisuke:" becomes ":dicek:". */
  function Segment(text: string, g: Rng): Draw<string> {
    var d := DiceMap(Split(text, DicePattern), g);
    Draw(ReplaceAll(d.value, Daisuke, Dicek), d.rng)
  }

  /** bot.js:41-64, the outer `map` and `join`: a ":dicek:" piece becomes
      ":daisuke:", every other piece goes through `Segment`. */
  function DicekMap(pieces: seq<string>, g: Rng): Draw<string>
    decreases |pieces|
  {
    if pieces == [] then Draw("", g)
    else if pieces[0] == Dicek then
      var rest := DicekMap(pieces[1..], g);
      Draw(Daisuke + rest.value, rest.rng)
    else
      var seg := Segment(pieces[0], g);
      var rest := DicekMap(pieces[1..], seg.rng);
      Draw(seg.value + rest.value, rest.rng)
  }

  /** `str_to_dice(str)`, threading the generator. */
  function StrToDice(s: string, g: Rng): Draw<string> {
    DicekMap(Split(s, DicekPattern), g)
  }

  // ---------------------------------------------------------------------
  // Reference rewritings
  // ---------------------------------------------------------------------

  /** Dice words replaced left to right, one draw each. */
  function ReplaceDice(t: string, g: Rng): Draw<string>
    decreases |t|
  {
    if t == [] then Draw("", g)
    else if MatchLen(DicePattern, t) > 0 then
      var d := NextInt(g, 0, 6);
      var rest := ReplaceDice(t[4..], d.rng);
      Draw([DiceFaces[d.value.value]] + rest.value, rest.rng)
    else
      var rest := ReplaceDice(t[1..], g);
      Draw([t[0]] + rest.value, rest.rng)
  }

  /** One left-to-right pass over a text outside ":dicek:": ":daisuke:"
      becomes ":dicek:", a dice word becomes one drawn face, anything else
      is copied. */
  function Substitute(t: string, g: Rng): Draw<string>
    decreases |t|
  {
    if t == [] then Draw("", g)
    else if StartsWith(t, Daisuke) then
      var rest := Substitute(t[9..], g);
      Draw(Dicek + rest.value, rest.rng)
    else if MatchLen(DicePattern, t) > 0 then
      var d := NextInt(g, 0, 6);
      var rest := Substitute(t[4..], d.rng);
      Draw([DiceFaces[d.value.value]] + rest.value, rest.rng)
    else
      var rest := Substitute(t[1..], g);
      Draw([t[0]] + rest.value, rest.rng)
  }


  // ---------------------------------------------------------------------
  // Unfolding steps
  // ---------------------------------------------------------------------

  /** A match at the start: an empty text piece, the match, then the split
      of what follows. */
  lemma {:induction false} SplitAtMatch(s: string, p: Pattern)
    requires MatchLen(p, s) > 0
    ensures Split(s, p) == ["", s[..MatchLen(p, s)]] + Split(s[MatchLen(p, s)..], p)
  {
  }

  /** No match at the start: the first character joins the first piece of
      the split of the rest. */
  lemma {:induction false} SplitAtPlain(s: string, p: Pattern)
    requires s != [] && MatchLen(p, s) == 0
    ensures Split(s, p) == [[s[0]] + Split(s[1..], p)[0]] + Split(s[1..], p)[1..]
  {
  }

  /** A piece without a dice word is kept. */
  lemma {:induction false} DiceMapKeep(x: string, rest: seq<string>, g: Rng)
    requires !HasMatch(x, DicePattern)
    ensures DiceMap([x] + rest, g) == Draw(x + DiceMap(rest, g).value, DiceMap(rest, g).rng)
  {
    assert ([x] + rest)[1..] == rest;
  }

  /** A piece with a dice word becomes one drawn face. */
  lemma {:induction false} DiceMapDraw(x: string, rest: seq<string>, g: Rng)
    requires HasMatch(x, DicePattern)
    ensures var d := NextInt(g, 0, 6);
            DiceMap([x] + rest, g)
              == Draw([DiceFaces[d.value.value]] + DiceMap(rest, d.rng).value, DiceMap(rest, d.rng).rng)
  {
    assert ([x] + rest)[1..] == rest;
  }

  /** A piece other than ":dicek:" goes through `Segment`. */
  lemma {:induction false} DicekMapSegment(x: string, rest: seq<string>, g: Rng)
    requires x != Dicek
    ensures var seg := Segment(x, g);
            DicekMap([x] + rest, g) == Draw(seg.value + DicekMap(rest, seg.rng).value, DicekMap(rest, seg.rng).rng)
  {
    assert ([x] + rest)[1..] == rest;
  }

  /** A ":dicek:" piece becomes ":daisuke:". */
  lemma {:induction false} DicekMapDicek(rest: seq<string>, g: Rng)
    ensures DicekMap([Dicek] + rest, g) == Draw(Daisuke + DicekMap(rest, g).value, DicekMap(rest, g).rng)
  {
    assert ([Dicek] + rest)[1..] == rest;
  }

  // ---------------------------------------------------------------------
  // Facts about Split
  // ---------------------------------------------------------------------

  /** A match at the start of `u` is still the same match when text follows. */
  lemma {:induction false} MatchLenExtend(p: Pattern, u: string, w: string)
    requires MatchLen(p, u) > 0
    ensures MatchLen(p, u + w) == MatchLen(p, u)
  {
    var k := MatchLen(p, u);
    assert (u + w)[..k] == u[..k];
    if p == DicePattern && !StartsWith(u, Saikoro) {
      assert (u + w)[..4] == u[..4];
    }
  }

  /** Joining the pieces after a match at the start gives back the text
      when joining the split of what follows does. */
  lemma {:induction false} SplitJoinMatchStep(s: string, p: Pattern)
    requires MatchLen(p, s) > 0
    requires Join(Split(s[MatchLen(p, s)..], p)) == s[MatchLen(p, s)..]
    ensures Join(Split(s, p)) == s
  {
    var k := MatchLen(p, s);
    var r := Split(s[k..], p);
    SplitAtMatch(s, p);
    JoinSplitAt(s, k, r);
  }

  /** Joining the pieces when no match starts at the front gives back the
      text when joining the split of the rest does. */
  lemma {:induction false} SplitJoinPlainStep(s: string, p: Pattern)
    requires s != [] && MatchLen(p, s) == 0
    requires Join(Split(s[1..], p)) == s[1..]
    ensures Join(Split(s, p)) == s
  {
    var r := Split(s[1..], p);
    var c, x, tl := s[0], r[0], r[1..];
    assert Split(s, p) == [[c] + x] + tl by {
      SplitAtPlain(s, p);
    }
    assert x + Join(tl) == s[1..] by {
      assert [x] + tl == r;
      JoinCons(x, tl);
    }
    JoinConsFirst(c, x, tl, s[1..]);
    assert [c] + s[1..] == s;
  }

  /** Joining the pieces gives back the text. */
  lemma {:induction false} SplitJoin(s: string, p: Pattern)
    ensures Join(Split(s, p)) == s
    decreases |s|
  {
    var k := MatchLen(p, s);
    if s == [] {
    } else if k > 0 {
      SplitJoin(s[k..], p);
      SplitJoinMatchStep(s, p);
    } else {
      SplitJoin(s[1..], p);
      SplitJoinPlainStep(s, p);
    }
  }

  /** The first piece is a prefix of the text in which the pattern does not
      match anywhere. */
  lemma {:induction false} SplitFirstPiece(s: string, p: Pattern)
    ensures |Split(s, p)[0]| <= |s| && Split(s, p)[0] == s[..|Split(s, p)[0]|]
    ensures !HasMatch(Split(s, p)[0], p)
    decreases |s|
  {
    var k := MatchLen(p, s);
    if s == [] || k > 0 {
      if k > 0 {
        SplitAtMatch(s, p);
      }
      assert Split(s, p)[0] == "";
      assert ""[0..] == "";
    } else {
      var r0 := Split(s[1..], p)[0];
      SplitAtPlain(s, p);
      SplitFirstPiece(s[1..], p);
      var f := [s[0]] + r0;
      assert Split(s, p)[0] == f;
      assert f == s[..|f|];
      forall j | 0 <= j <= |f| ensures MatchLen(p, f[j..]) == 0 {
        if j == 0 {
          assert f[0..] == f;
          if MatchLen(p, f) > 0 {
            MatchLenExtend(p, f, s[|f|..]);
          }
        } else {
          assert f[j..] == r0[j - 1..];
        }
      }
    }
  }

  /** Text in which the pattern never matches splits into itself alone. */
  lemma {:induction false} SplitNoMatch(s: string, p: Pattern)
    requires !HasMatch(s, p)
    ensures Split(s, p) == [s]
    decreases |s|
  {
    if s != [] {
      assert s[0..] == s;
      assert !HasMatch(s[1..], p) by {
        forall j | 0 <= j <= |s[1..]| ensures MatchLen(p, s[1..][j..]) == 0 {
          assert s[1..][j..] == s[j + 1..];
        }
      }
      SplitNoMatch(s[1..], p);
      SplitAtPlain(s, p);
      assert [s[0]] + s[1..] == s;
    }
  }

  /** Text `a` in which no match starts is glued onto the first piece of
      what follows. */
  lemma {:induction false} SplitPrepend(a: string, b: string, p: Pattern)
    requires forall j :: 0 <= j < |a| ==> MatchLen(p, (a + b)[j..]) == 0
    ensures Split(a + b, p) == [a + Split(b, p)[0]] + Split(b, p)[1..]
    decreases |a|
  {
    var r := Split(b, p);
    if a == [] {
      assert a + b == b;
      assert a + r[0] == r[0];
      assert [r[0]] + r[1..] == r;
    } else {
      var s, t := a + b, a[1..] + b;
      assert MatchLen(p, s) == 0 && s[1..] == t && s[0] == a[0] by {
        assert s[0..] == s;
      }
      assert forall j :: 0 <= j < |a[1..]| ==> MatchLen(p, t[j..]) == 0 by {
        forall j | 0 <= j < |a[1..]| ensures MatchLen(p, t[j..]) == 0 {
          DropShift(s, a, b, j);
        }
      }
      SplitPrepend(a[1..], b, p);
      SplitAtPlain(s, p);
      ConsAppend(a, r[0]);
    }
  }

  // ---------------------------------------------------------------------
  // The inner map is ReplaceDice; the segment step is Substitute
  // ---------------------------------------------------------------------

  /** A dice word at the start of a text makes its first four characters a
      piece that tests positive. */
  lemma {:induction false} WordPieceMatches(t: string)
    requires MatchLen(DicePattern, t) > 0
    ensures HasMatch(t[..4], DicePattern)
  {
    var w := t[..4];
    assert w[0..] == w;
    if StartsWith(t, Saikoro) {
      assert w[..4] == t[..4];
    }
  }

  /** The step of `DiceMapIsReplaceDice` at a dice word. */
  lemma {:induction false} DiceMapStepWord(t: string, g: Rng)
    requires MatchLen(DicePattern, t) > 0
    requires var d := NextInt(g, 0, 6);
             DiceMap(Split(t[4..], DicePattern), d.rng) == ReplaceDice(t[4..], d.rng)
    ensures DiceMap(Split(t, DicePattern), g) == ReplaceDice(t, g)
  {
    var p := DicePattern;
    var tail, word := Split(t[4..], p), t[..4];
    var d := NextInt(g, 0, 6);
    var out := DiceMap(tail, d.rng);
    assert Split(t, p) == [""] + ([word] + tail) by {
      SplitAtMatch(t, p);
    }
    assert DiceMap([word] + tail, g) == Draw([DiceFaces[d.value.value]] + out.value, out.rng) by {
      WordPieceMatches(t);
      DiceMapDraw(word, tail, g);
    }
    assert DiceMap([""] + ([word] + tail), g) == DiceMap([word] + tail, g) by {
      assert !HasMatch("", p);
      DiceMapKeep("", [word] + tail, g);
      assert "" + DiceMap([word] + tail, g).value == DiceMap([word] + tail, g).value;
    }
  }

  /** The step of `DiceMapIsReplaceDice` at any other character. */
  lemma {:induction false} DiceMapStepPlain(t: string, g: Rng)
    requires t != [] && MatchLen(DicePattern, t) == 0
    requires DiceMap(Split(t[1..], DicePattern), g) == ReplaceDice(t[1..], g)
    ensures DiceMap(Split(t, DicePattern), g) == ReplaceDice(t, g)
  {
    var p := DicePattern;
    var rest := Split(t[1..], p);
    SplitAtPlain(t, p);
    SplitFirstPiece(t, p);
    SplitFirstPiece(t[1..], p);
    DiceMapKeep([t[0]] + rest[0], rest[1..], g);
    DiceMapKeep(rest[0], rest[1..], g);
    assert [rest[0]] + rest[1..] == rest;
    var tailOut := DiceMap(rest[1..], g).value;
    assert ([t[0]] + rest[0]) + tailOut == [t[0]] + (rest[0] + tailOut);
  }

  /** Splitting on the dice pattern, mapping and joining is the same as
      replacing dice words left to right. */
  lemma {:induction false} DiceMapIsReplaceDice(t: string, g: Rng)
    ensures DiceMap(Split(t, DicePattern), g) == ReplaceDice(t, g)
    decreases |t|
  {
    if t == [] {
      assert !HasMatch("", DicePattern);
      DiceMapKeep("", [], g);
    } else if MatchLen(DicePattern, t) > 0 {
      DiceMapIsReplaceDice(t[4..], NextInt(g, 0, 6).rng);
      DiceMapStepWord(t, g);
    } else {
      DiceMapIsReplaceDice(t[1..], g);
      DiceMapStepPlain(t, g);
    }
  }

  /** The text contains no die face. */
  predicate NoFace(w: string) {
    forall i :: 0 <= i < |w| ==> w[i] !in DiceFaces
  }

  /** If the output of `ReplaceDice` begins with face-free text, the input
      began with that same text. */
  lemma {:induction false} ReplaceDicePrefix(u: string, w: string, g: Rng)
    requires NoFace(w)
    requires StartsWith(ReplaceDice(u, g).value, w)
    ensures StartsWith(u, w)
    decreases |w|
  {
    if w != [] {
      var out := ReplaceDice(u, g).value;
      assert out[0] == w[0];
      if u != [] && MatchLen(DicePattern, u) == 0 {
        var rest := ReplaceDice(u[1..], g).value;
        assert out == [u[0]] + rest;
        assert StartsWith(rest, w[1..]) by {
          assert rest[..|w| - 1] == out[1..|w|];
        }
        ReplaceDicePrefix(u[1..], w[1..], g);
        assert u[..|w|] == [u[0]] + u[1..][..|w| - 1];
      }
    }
  }

  /** Text `a` in which no dice word starts is copied unchanged in front of
      the rewriting of what follows. */
  lemma {:induction false} ReplaceDiceCopies(a: string, b: string, g: Rng)
    requires forall j :: 0 <= j < |a| ==> MatchLen(DicePattern, (a + b)[j..]) == 0
    ensures ReplaceDice(a + b, g) == Draw(a + ReplaceDice(b, g).value, ReplaceDice(b, g).rng)
    decreases |a|
  {
    var y := ReplaceDice(b, g).value;
    if a == [] {
      assert a + b == b;
      assert a + y == y;
    } else {
      var s, t := a + b, a[1..] + b;
      assert ReplaceDice(s, g) == Draw([a[0]] + ReplaceDice(t, g).value, ReplaceDice(t, g).rng) by {
        assert s[0..] == s && s[1..] == t && s[0] == a[0];
      }
      assert forall j :: 0 <= j < |a[1..]| ==> MatchLen(DicePattern, t[j..]) == 0 by {
        forall j | 0 <= j < |a[1..]| ensures MatchLen(DicePattern, t[j..]) == 0 {
          DropShift(s, a, b, j);
        }
      }
      ReplaceDiceCopies(a[1..], b, g);
      ConsAppend(a, y);
    }
  }

  /** No dice word starts inside ":daisuke:", even with text after it. */
  lemma {:induction false} DaisukeHasNoDiceWord(b: string)
    ensures forall j :: 0 <= j < 9 ==> MatchLen(DicePattern, (Daisuke + b)[j..]) == 0
  {
    var s := Daisuke + b;
    forall j | 0 <= j < 9 ensures MatchLen(DicePattern, s[j..]) == 0 {
      assert s[j..][0] == Daisuke[j];
      if j == 1 {
        assert s[j..][1] == 'a';
      }
    }
  }

  /** Replacing dice words and then ":daisuke:" is the single pass
      `Substitute`: the two rewritings never interfere, because no dice
      word overlaps ":daisuke:" and the faces cannot form one. */
  lemma {:induction false} ReplaceAllAfterReplaceDice(t: string, g: Rng)
    ensures ReplaceAll(ReplaceDice(t, g).value, Daisuke, Dicek) == Substitute(t, g).value
    ensures ReplaceDice(t, g).rng == Substitute(t, g).rng
    decreases |t|
  {
    if t == [] {
    } else if StartsWith(t, Daisuke) {
      var b := t[9..];
      assert t == Daisuke + b;
      DaisukeHasNoDiceWord(b);
      ReplaceDiceCopies(Daisuke, b, g);
      var x := ReplaceDice(b, g).value;
      assert StartsWith(Daisuke + x, Daisuke);
      assert (Daisuke + x)[9..] == x;
      ReplaceAllAfterReplaceDice(b, g);
    } else if MatchLen(DicePattern, t) > 0 {
      var d := NextInt(g, 0, 6);
      var face := DiceFaces[d.value.value];
      var x := ReplaceDice(t[4..], d.rng).value;
      assert ReplaceDice(t, g).value == [face] + x;
      assert ([face] + x)[0] == face;
      assert !StartsWith([face] + x, Daisuke);
      assert ([face] + x)[1..] == x;
      ReplaceAllAfterReplaceDice(t[4..], d.rng);
    } else {
      var y := ReplaceDice(t[1..], g).value;
      assert ReplaceDice(t, g).value == [t[0]] + y;
      if StartsWith([t[0]] + y, Daisuke) {
        assert ([t[0]] + y)[1..9] == y[..8];
        assert StartsWith(y, Daisuke[1..]);
        ReplaceDicePrefix(t[1..], Daisuke[1..], g);
        assert false;
      }
      assert ([t[0]] + y)[1..] == y;
      ReplaceAllAfterReplaceDice(t[1..], g);
    }
  }

  /** The per-segment step of `str_to_dice` is the single pass
      `Substitute`. */
  lemma {:induction false} SegmentIsSubstitute(t: string, g: Rng)
    ensures Segment(t, g) == Substitute(t, g)
  {
    DiceMapIsReplaceDice(t, g);
    ReplaceAllAfterReplaceDice(t, g);
  }

  // ---------------------------------------------------------------------
  // Properties of str_to_dice
  // ---------------------------------------------------------------------

  /** A dice-free text without ":daisuke:" passes `Substitute` unchanged
      and draws nothing. */
  lemma {:induction false} SubstitutePlain(t: string, g: Rng)
    requires !HasMatch(t, DicePattern) && !Contains(t, Daisuke)
    ensures Substitute(t, g) == Draw(t, g)
    decreases |t|
  {
    if t != [] {
      assert t[0..] == t;
      assert !HasMatch(t[1..], DicePattern) by {
        forall j | 0 <= j <= |t[1..]| ensures MatchLen(DicePattern, t[1..][j..]) == 0 {
          assert t[1..][j..] == t[j + 1..];
        }
      }
      assert !Contains(t[1..], Daisuke) by {
        forall j | 0 <= j <= |t[1..]| ensures !StartsWith(t[1..][j..], Daisuke) {
          assert t[1..][j..] == t[j + 1..];
        }
      }
      assert !StartsWith(t, Daisuke);
      assert MatchLen(DicePattern, t) == 0;
      SubstitutePlain(t[1..], g);
      assert [t[0]] + t[1..] == t;
    }
  }

  /** ":dicek:" begins with ":" followed by a dice word. */
  lemma {:induction false} DicekHoldsDiceWord(u: string)
    requires MatchLen(DicekPattern, u) > 0
    ensures MatchLen(DicePattern, u[1..]) > 0
  {
    assert u[..7] == Dicek;
    assert u[1] == 'd' && u[2] == 'i' && u[3] == 'c' && u[4] == 'e';
    assert StartsWithDiceLatin(u[1..]);
  }

  /** Text without a dice word contains no ":dicek:" either. */
  lemma {:induction false} NoDiceWordNoDicek(s: string)
    requires !HasMatch(s, DicePattern)
    ensures !HasMatch(s, DicekPattern)
  {
    forall j | 0 <= j <= |s| ensures MatchLen(DicekPattern, s[j..]) == 0 {
      if MatchLen(DicekPattern, s[j..]) > 0 {
        DicekHoldsDiceWord(s[j..]);
      }
    }
  }

  /** Text without a dice word is one piece for the outer split, which
      `str_to_dice` hands to `Segment` alone. */
  lemma {:induction false} StrToDiceSinglePiece(s: string, g: Rng)
    requires !HasMatch(s, DicePattern)
    ensures StrToDice(s, g) == Segment(s, g)
  {
    NoDiceWordNoDicek(s);
    SplitNoMatch(s, DicekPattern);
    assert s != Dicek by {
      assert s[0..] == s;
    }
    assert [s] + [] == [s];
    DicekMapSegment(s, [], g);
    assert Segment(s, g).value + "" == Segment(s, g).value;
  }

  /** Text with no dice word and no ":daisuke:" (hence no ":dicek:") is
      returned unchanged, and the generator is not advanced. */
  lemma {:induction false} StrToDicePlain(s: string, g: Rng)
    requires !HasMatch(s, DicePattern) && !Contains(s, Daisuke)
    ensures StrToDice(s, g) == Draw(s, g)
  {
    StrToDiceSinglePiece(s, g);
    SegmentIsSubstitute(s, g);
    SubstitutePlain(s, g);
  }

  /** The empty text passes `Segment` unchanged. */
  lemma SegmentEmpty(g: Rng)
    ensures Segment("", g) == Draw("", g)
  {
    SegmentIsSubstitute("", g);
  }

  /** A leading ":dicek:" becomes ":daisuke:", and the rest is processed as
      if it stood alone. */
  lemma {:induction false} StrToDiceDicek(b: string, g: Rng)
    ensures var rest := StrToDice(b, g);
            StrToDice(Dicek + b, g) == Draw(Daisuke + rest.value, rest.rng)
  {
    var s := Dicek + b;
    var r := Split(b, DicekPattern);
    assert s[..7] == Dicek;
    assert s[7..] == b;
    SplitAtMatch(s, DicekPattern);
    assert Split(s, DicekPattern) == [""] + ([Dicek] + r);
    SegmentEmpty(g);
    DicekMapSegment("", [Dicek] + r, g);
    DicekMapDicek(r, g);
    var out := DicekMap([Dicek] + r, g).value;
    assert "" + out == out;
  }

  /** The first piece of a split never equals ":dicek:". */
  lemma {:induction false} FirstPieceNotDicek(b: string)
    ensures Split(b, DicekPattern)[0] != Dicek
  {
    SplitFirstPiece(b, DicekPattern);
    assert Dicek[0..] == Dicek;
  }

  /** `str_to_dice` handles the first piece of its split with `Substitute`
      and then the remaining pieces. */
  lemma {:induction false} DicekMapFirst(b: string, g: Rng)
    ensures var r := Split(b, DicekPattern);
            var head := Substitute(r[0], g);
            var rest := DicekMap(r[1..], head.rng);
            StrToDice(b, g) == Draw(head.value + rest.value, rest.rng)
  {
    var r := Split(b, DicekPattern);
    FirstPieceNotDicek(b);
    SegmentIsSubstitute(r[0], g);
    assert [r[0]] + r[1..] == r;
    DicekMapSegment(r[0], r[1..], g);
  }

  /** Gluing non-empty text `a` in front: when no ":dicek:" match starts
      inside `a`, `str_to_dice` handles `a` plus the first piece of what
      follows with `Substitute`. */
  lemma {:induction false} StrToDicePrefix(a: string, b: string, g: Rng)
    requires a != []
    requires forall j :: 0 <= j < |a| ==> MatchLen(DicekPattern, (a + b)[j..]) == 0
    ensures var r := Split(b, DicekPattern);
            var head := Substitute(a + r[0], g);
            var rest := DicekMap(r[1..], head.rng);
            StrToDice(a + b, g) == Draw(head.value + rest.value, rest.rng)
  {
    var r := Split(b, DicekPattern);
    SplitPrepend(a, b, DicekPattern);
    var first := a + r[0];
    assert first != Dicek by {
      SplitFirstPiece(b, DicekPattern);
      assert (a + b)[0..] == a + b;
      assert !StartsWith(a + b, Dicek);
      assert |first| <= |a + b| && (a + b)[..|first|] == first;
    }
    DicekMapSegment(first, r[1..], g);
    SegmentIsSubstitute(first, g);
  }

  /** No ":dicek:" starts inside a dice word. */
  lemma {:induction false} WordHasNoDicek(w: string, b: string)
    requires |w| == 4 && MatchLen(DicePattern, w) == 4
    ensures forall j :: 0 <= j < |w| ==> MatchLen(DicekPattern, (w + b)[j..]) == 0
    ensures !StartsWith(Dicek, w)
  {
    var s := w + b;
    assert w[0] != ':' by {
      if StartsWith(w, Saikoro) {
        assert w[0] == Saikoro[0];
      }
    }
    forall j | 0 <= j < |w| ensures MatchLen(DicekPattern, s[j..]) == 0 {
      assert s[j..][0] == w[j];
      if StartsWith(w, Saikoro) {
        assert w == Saikoro;
      }
    }
  }

  /** `Substitute` turns a leading dice word into one drawn face. */
  lemma {:induction false} SubstituteWord(w: string, x: string, g: Rng)
    requires |w| == 4 && MatchLen(DicePattern, w) == 4
    ensures var d := NextInt(g, 0, 6);
            var sub := Substitute(x, d.rng);
            Substitute(w + x, g) == Draw([DiceFaces[d.value.value]] + sub.value, sub.rng)
  {
    var first := w + x;
    MatchLenExtend(DicePattern, w, x);
    assert w[0] != ':' by {
      if StartsWith(w, Saikoro) {
        assert w[0] == Saikoro[0];
      }
    }
    assert !StartsWith(first, Daisuke) by {
      assert first[0] == w[0];
    }
    assert first[4..] == x;
  }

  /** When `Substitute` turns `a` followed by the first piece of `b` into
      `x` followed by what it makes of that piece from `g'`, then
      `str_to_dice` turns `a + b` into `x` followed by what it makes of `b`
      from `g'`. */
  lemma {:induction false} StrToDiceGlue(a: string, b: string, x: string, g: Rng, g': Rng)
    requires a != []
    requires forall j :: 0 <= j < |a| ==> MatchLen(DicekPattern, (a + b)[j..]) == 0
    requires var r0 := Split(b, DicekPattern)[0];
             Substitute(a + r0, g) == Draw(x + Substitute(r0, g').value, Substitute(r0, g').rng)
    ensures var rest := StrToDice(b, g');
            StrToDice(a + b, g) == Draw(x + rest.value, rest.rng)
  {
    var r := Split(b, DicekPattern);
    var sub := Substitute(r[0], g');
    var tl := DicekMap(r[1..], sub.rng);
    assert StrToDice(a + b, g) == Draw((x + sub.value) + tl.value, tl.rng) by {
      StrToDicePrefix(a, b, g);
    }
    assert StrToDice(b, g') == Draw(sub.value + tl.value, tl.rng) by {
      DicekMapFirst(b, g');
    }
    assert (x + sub.value) + tl.value == x + (sub.value + tl.value);
  }

  /** A leading dice word becomes exactly one face `dice[i]` with `i` drawn
      by `nextInt(0, 6)`, so `0 <= i < 6`; the rest is processed as if it
      stood alone, with the generator after the draw. */
  lemma {:induction false} StrToDiceWord(w: string, b: string, g: Rng)
    requires |w| == 4 && MatchLen(DicePattern, w) == 4
    ensures var d := NextInt(g, 0, 6);
            var rest := StrToDice(b, d.rng);
            && d.value.Some? && 0 <= d.value.value < 6
            && StrToDice(w + b, g) == Draw([DiceFaces[d.value.value]] + rest.value, rest.rng)
  {
    var d := NextInt(g, 0, 6);
    WordHasNoDicek(w, b);
    SubstituteWord(w, Split(b, DicekPattern)[0], g);
    StrToDiceGlue(w, b, [DiceFaces[d.value.value]], g, d.rng);
  }

  /** No ":dicek:" starts inside ":daisuke:" unless the text after it
      begins with "dicek:". */
  lemma {:induction false} DaisukeHasNoDicek(b: string)
    requires !StartsWith(b, "dicek:")
    ensures forall j :: 0 <= j < 9 ==> MatchLen(DicekPattern, (Daisuke + b)[j..]) == 0
  {
    var s := Daisuke + b;
    forall j | 0 <= j < 9 ensures MatchLen(DicekPattern, s[j..]) == 0 {
      var t := s[j..];
      assert t[0] == Daisuke[j];
      if j == 0 {
        assert t[2] == 'a' != Dicek[2];
      } else if j < 8 {
        assert Daisuke[j] != ':' == Dicek[0];
      } else {
        assert t[1..] == b;
        if |t| >= 7 {
          assert t[..7][1..] == b[..6];
          assert Dicek[1..] == "dicek:";
        }
      }
    }
  }

  /** A leading ":daisuke:" becomes ":dicek:" unless it is the start of
      ":daisuke:dicek:", where the ":dicek:" takes precedence. */
  lemma {:induction false} StrToDiceDaisuke(b: string, g: Rng)
    requires !StartsWith(b, "dicek:")
    ensures var rest := StrToDice(b, g);
            StrToDice(Daisuke + b, g) == Draw(Dicek + rest.value, rest.rng)
  {
    var r0 := Split(b, DicekPattern)[0];
    var first := Daisuke + r0;
    assert Substitute(first, g) == Draw(Dicek + Substitute(r0, g).value, Substitute(r0, g).rng) by {
      assert StartsWith(first, Daisuke);
      assert first[9..] == r0;
    }
    DaisukeHasNoDicek(b);
    StrToDiceGlue(Daisuke, b, Dicek, g, g);
  }

  /** Outside ":dicek:", a ":" in front of a dice word is copied: it does
      not open ":daisuke:". */
  lemma {:induction false} SubstituteColon(w: string, r0: string, g: Rng)
    requires |w| == 4 && MatchLen(DicePattern, w) == 4
    ensures var sub := Substitute(w + r0, g);
            Substitute(":" + w + r0, g) == Draw(":" + sub.value, sub.rng)
  {
    var t := ":" + w + r0;
    assert t[0] == ':' && t[1] == w[0] && t[2] == w[1];
    assert !StartsWith(t, Daisuke) by {
      if StartsWith(w, Saikoro) {
        assert w[0] == Saikoro[0];
      } else {
        assert w[1] in "iI";
      }
    }
    assert MatchLen(DicePattern, t) == 0;
    assert t[1..] == w + r0;
  }

  /** ":" followed by a dice word, as in ":dice", becomes ":" followed by
      one drawn face, unless the text goes on to spell ":dicek:", which is
      matched first. */
  lemma {:induction false} StrToDiceColonWord(w: string, b: string, g: Rng)
    requires |w| == 4 && MatchLen(DicePattern, w) == 4
    requires !StartsWith(":" + w + b, Dicek)
    ensures var d := NextInt(g, 0, 6);
            var rest := StrToDice(b, d.rng);
            StrToDice(":" + w + b, g) == Draw(":" + [DiceFaces[d.value.value]] + rest.value, rest.rng)
  {
    var d := NextInt(g, 0, 6);
    var a := ":" + w;
    var r0 := Split(b, DicekPattern)[0];
    var face := [DiceFaces[d.value.value]];
    var tail := Substitute(r0, d.rng);
    assert Substitute(a + r0, g) == Draw((":" + face) + tail.value, tail.rng) by {
      SubstituteColon(w, r0, g);
      SubstituteWord(w, r0, g);
      assert ":" + (face + tail.value) == (":" + face) + tail.value;
    }
    assert forall j :: 0 <= j < |a| ==> MatchLen(DicekPattern, (a + b)[j..]) == 0 by {
      WordHasNoDicek(w, b);
      forall j | 0 <= j < |a| ensures MatchLen(DicekPattern, (a + b)[j..]) == 0 {
        if j == 0 {
          assert (a + b)[0..] == ":" + w + b;
        } else {
          assert (a + b)[j..] == (w + b)[j - 1..];
        }
      }
    }
    StrToDiceGlue(a, b, ":" + face, g, d.rng);
  }
}
