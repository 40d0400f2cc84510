# Hanshin arithmetic bot — a Dafny model of its core

The bot answers chat messages in three ways.

- **Hanshin arithmetic.** An arithmetic expression written only with the
  digits 3 and 4, in the pattern 3-3-4 ("33-4"), is offered to the store
  under its integer value. It is kept when that value has no entry yet or
  when it is strictly preferred to the stored one, and it is answered with
  its value. Other expression text with an integer value is answered with
  the stored expression for that value, or with ":no_good: v :no_good:"
  when there is none.
- **Dice.** Dice words are replaced by die faces drawn from a
  reproducible xorshift generator.
- **FizzBuzz.** A FizzBuzz request is answered line by line, with every
  plain number shown through the Hanshin store.

The model covers:

- **The Hanshin store** (`hanshin.js`):
  - which texts are valid expressions (`isValid`);
  - which of two expressions is preferred (`compare`);
  - storing and looking up (`set`, `get`) from the initial table
    `{334: "334"}`;
  - the ledger of winners (`addWinner`, `getWinner`, `getLatestWinner`).
- **The generator** (`xsrnd.js`): the constructor, `next` and `nextInt`,
  on four 32-bit registers.
- **The text handling of the bot** (`bot.js`):
  - the full-width to half-width table `repl_tbl`;
  - `str_to_dice`;
  - `expr_to_v`;
  - `str_to_hanshin`;
  - the FizzBuzz reply.

Modules, one per file:

| file | module | contents |
|---|---|---|
| `common.dfy` | `Common` | `Option`, `replace` with a string pattern and a global pattern, `join`, the decimal text `"" + n` of an integer |
| `xorshift.dfy` | `XorShift` | the generator, its inverse step, and runs of calls |
| `hanshin_expr.dfy` | `HanshinExpr` | `isValid`, `compare`, and declarative readings of both |
| `hanshin_store.dfy` | `HanshinStore` | the table, `set`/`get`, and the winner ledger |
| `bot_dice.dfy` | `BotDice` | `str_to_dice`, plus a one-pass reference rewriting |
| `bot_text.dfy` | `BotText` | normalisation, `expr_to_v`, `str_to_hanshin`, FizzBuzz |

How the model represents the source:

- **The arithmetic evaluator** (mathjs) is a parameter
  `eval: string -> EvalOutcome`. Its outcome is `Throws`, `NotInteger` or
  `Integer(n)`.
  - mathjs is one shared module. It is configured when the store is built
    (hanshin.js:18-21) and again, with the same settings, when the bot
    starts (bot.js:155-158). The evaluation inside the store and the one
    in `expr_to_v` therefore use the same configuration, and a single
    evaluator serves both.
- **The store** is an immutable value `Db(hash, winner)`. Every mutating
  operation returns the new table together with its result. Writing to
  disk is left out.
- **The generator state** is threaded through as a value. Every draw
  returns the state after it.

## Model

| member | source | states |
|---|---|---|
| XorShift.New | xsrnd.js:5-11 | x, y and z start at the three fixed constants, and w holds the seed reduced modulo 2^32. Without a seed, w holds the default seed 88675123, reduced the same way. |
| XorShift.Next | xsrnd.js:14-21 | x, y and z shift down to the old y, z and w. The new w is the xorshift mix of the old x and w. The result is the signed 32-bit reading of the new w, within [-2^31, 2^31). |
| XorShift.NextInt | xsrnd.js:24-28 | The generator advances exactly as `next` does. A zero span yields no number (NaN in the source). When min < max the result lies in [min, max). When max < min the truncating remainder keeps it in [min, 2·min − max). |
| XorShift.AbsNextBounds | xsrnd.js:26 | `Math.abs(next())` lies in [0, 2^31]. It reaches 2^31 when the register is 0x80000000. |
| XorShift.PrevNext | xsrnd.js:18-20 | One step can be undone, so distinct states never step to the same state. |
| XorShift.NextNonZero | xsrnd.js:18-20 | A state that is not all zeros never steps to the all-zero state. |
| XorShift.Reproducible | xsrnd.js:5-28 | Two generators whose seeds agree modulo 2^32 produce the same outputs for any sequence of `next`/`nextInt` calls. |
| HanshinExpr.ScanFollowsCycle | hanshin.js:29-42 | The digit loop succeeds from position c exactly when the 3s and 4s follow "334" cyclically from c. It then ends at c plus the number of digits, modulo 3. |
| HanshinExpr.ScanExamples | hanshin.js:29-42 | "334", "334334" and "3+3*4" pass the digit loop. "343" fails it, and "33" stops mid-cycle. |
| HanshinExpr.IsValidSpec | hanshin.js:24-54 | Validity holds iff three things hold: every character is in the class, the 3s and 4s form whole 3-3-4 cycles, and evaluation does not throw. |
| HanshinExpr.ShortDigitTextInvalid | hanshin.js:24-42 | No one- or two-digit number text is valid. |
| HanshinExpr.CountSqrtBound | hanshin.js:124-125 | Each counted "sqrt" uses four characters of its own, so the third tier's length is never negative. |
| HanshinExpr.CompareIsRankLess | hanshin.js:109-128 | `compare` is true iff the lexicographic three-way ranking of the three tiers (4s, then sqrt plus "!", then effective length) says Less. That ranking is antisymmetric. |
| HanshinExpr.CompareIrreflexive | hanshin.js:109-128 | No expression is preferred to itself. |
| HanshinExpr.CompareAsymmetric | hanshin.js:109-128 | Preference never holds in both directions. |
| HanshinExpr.CompareTransitive | hanshin.js:109-128 | Preference is transitive. |
| HanshinExpr.CompareExample | hanshin.js:111-115 | "334" is preferred to "3+3+4+4" (fewer 4s), and not the reverse. |
| HanshinStore.Value | hanshin.js:134-148 | A value exists exactly when evaluation yields an integer, and it is that integer. |
| HanshinStore.Set | hanshin.js:130-153 | A refused call returns null and leaves the table alone. An accepted call stores the expression under its value and changes nothing else. Acceptance holds iff all three hold: the expression is valid, its value is an integer, and one of force, no entry for the value, or the expression is strictly preferred to the stored one holds. |
| HanshinStore.Get | hanshin.js:155-158 | The stored expression is found iff the value has an entry. |
| HanshinStore.InitialConsistent | hanshin.js:12-15 | The initial table `{334: "334"}` satisfies the table invariant: every entry is valid and evaluates to its key. |
| HanshinStore.SetPreservesConsistent | hanshin.js:130-153 | `set` keeps the table invariant, forced or not. |
| HanshinStore.SetOnlyImproves | hanshin.js:149-150 | Without force, no key is lost, and any entry that changes is replaced by a strictly preferred expression. |
| HanshinStore.SetIdempotent | hanshin.js:149 | Offering the same expression a second time is refused and changes nothing. |
| HanshinStore.ForceAlwaysStores | hanshin.js:149-152 | A forced `set` of a valid integer-valued expression always stores it. |
| HanshinStore.GetAfterSet | hanshin.js:150-158 | After a successful `set`, `get` of its value returns the new expression, and `get` of any other value is unchanged. |
| HanshinStore.AddWinner | hanshin.js:56-70 | The intended ledger update: a new identity gets count 1, and a known one has its count raised by one. Its time becomes now, the other identities and the hash are untouched, and the result is the number of identities. |
| HanshinStore.GetWinner | hanshin.js:72-75 | The intended lookup: the record is found iff the identity is in the ledger. |
| HanshinStore.GetWinnerAsWritten | hanshin.js:72-75 | The lookup as written, where `in` also sees `Object.prototype`. An own record is found iff the identity is in the ledger. An inherited member is returned iff the name is not in the ledger but is inherited. `null` comes back only for other names. |
| HanshinStore.AddWinnerAsWritten | hanshin.js:56-70 | The update as written. For an inherited name that is not in the ledger, the ledger and the returned number are unchanged. Every other identity is handled as `AddWinner` handles it. |
| HanshinStore.ConstructorNotRecorded | hanshin.js:56-75 | A first win by the user "constructor" leaves no record and does not raise the count as written, and a later lookup finds the inherited function. The intended ledger records the user with count 1 and raises the count by one. |
| HanshinStore.ToStringFound | hanshin.js:72-75 | For "toString", which nobody has won as, the lookup as written returns the inherited function, while the intended lookup returns none. |
| HanshinStore.AddWinnerCounts | hanshin.js:56-70 | Counts stay positive. The returned number grows by one exactly when the identity is new. |
| HanshinStore.LedgerScenario | hanshin.js:56-70 | Adding one identity three times and then another returns 1, 1, 1 and then 2. The first identity then has count 3 with the third time. |
| HanshinStore.GetLatestWinner | hanshin.js:77-107 | The count is the number of identities. The chosen identity is absent iff the ledger is empty; otherwise its time is maximal and every identity visited before it is strictly earlier. |
| Common.DigitsRoundTrip | bot.js:258 | The decimal text of a natural number is non-empty, consists of ASCII digits, and reads back as the number. |
| Common.ReplaceFirstAt | bot.js:93 | `replace` with a string pattern rewrites exactly the leftmost occurrence and keeps the text on both sides. |
| BotDice.SplitJoin | bot.js:41-50 | `split` on a pattern with a capturing group loses nothing: joining the pieces gives back the text. |
| BotDice.SplitNoMatch | bot.js:50 | Text in which the pattern never matches splits into itself alone. |
| BotDice.DiceMapIsReplaceDice | bot.js:50-60 | Splitting on the dice pattern, mapping each matched word to a drawn face, and joining equals replacing dice words left to right with one draw each. |
| BotDice.ReplaceDiceCopies | bot.js:50-60 | Text in which no dice word starts is copied unchanged, and draws nothing. |
| BotDice.SegmentIsSubstitute | bot.js:50-63 | For a segment outside ":dicek:", the dice step followed by the ":daisuke:" replacement equals one left-to-right pass that rewrites both. |
| BotDice.DicekHoldsDiceWord | bot.js:14-16 | ":dicek:" contains a dice word right after its colon, which is why ":dicek:" has to be split off first. |
| BotDice.SubstituteWord | bot.js:53-56 | A leading dice word becomes one face, drawn with `nextInt(0, 6)`. |
| BotDice.StrToDicePlain | bot.js:39-67 | Text with no dice word and no ":daisuke:" comes back unchanged, and the generator does not advance. |
| BotDice.StrToDiceDicek | bot.js:41-47 | A leading ":dicek:" becomes ":daisuke:", and the rest is processed as if it stood alone. |
| BotDice.StrToDicePrefix | bot.js:39-67 | Non-empty leading text inside which no ":dicek:" match starts (":" and ":dice" included) is rewritten in one pass together with the first piece after it. |
| BotDice.StrToDiceWord | bot.js:50-60 | A leading dice word becomes exactly one face `dice[i]` with 0 <= i < 6. The rest follows with the generator after that draw. |
| BotDice.StrToDiceColonWord | bot.js:39-67 | ":" and then a dice word (":dice", ":DICE", ":サイコロ") becomes ":" and one drawn face, unless the text goes on to spell ":dicek:". |
| BotDice.StrToDiceDaisuke | bot.js:62-63 | A leading ":daisuke:" becomes ":dicek:", unless it begins ":daisuke:dicek:", where the ":dicek:" match takes precedence. |
| BotText.NormalizeCharIsTable | bot.js:20-25 | Each character of `repl_tbl` is replaced by its table entry, and every other character stays. |
| BotText.NormalizeAppend | bot.js:73-76 | Normalisation works character by character, so it distributes over concatenation. |
| BotText.NormalizeKeeps | bot.js:73-76 | Text without table characters is unchanged. |
| BotText.NormalizeClean | bot.js:73-76 | After normalisation no table character remains. |
| BotText.NormalizeIdempotent | bot.js:73-76 | Normalising twice gives the same text as normalising once. |
| BotText.NormalizeExamples | bot.js:20-25 | Full-width "３３－４" becomes "33-4", "√４" becomes "sqrt4", and "3×4" becomes "3*4". |
| BotText.ValidIsExprText | bot.js:78 | Whatever passes `isValid` also passes the wider character class of `str_to_hanshin`. |
| BotText.ExprToValue | bot.js:113-127 | Several facts hold together. The value is the evaluated integer, whether or not the store accepted the expression. An invalid expression leaves the store alone. No key is lost and the ledger is untouched. After a valid integer-valued expression its value has an entry. That entry is the old one if the expression does not beat it, and the expression otherwise. Entries of other values are unchanged, and no other key appears. Any other expression leaves the store exactly as it was. |
| BotText.ExprToValueKeepsBest | bot.js:113-127 | After a valid integer-valued expression is offered, its value holds either the expression or the earlier entry, and the expression does not beat what is held. Offering it again changes nothing. |
| BotText.StrToHanshinSpec | bot.js:69-93 | Text outside the class gets no answer and no store change. Text inside the class leaves the store exactly as an unforced `set` of the normalised text does. There is no answer iff the text is outside the class or not integer-valued. A Hanshin expression is answered with its value. Any other integer-valued text leaves the store alone and is answered with the stored expression ("sqrt" shown as "√") or the ":no_good:" message. |
| BotText.StrToHanshinPreservesConsistent | bot.js:86 | `str_to_hanshin` keeps the table invariant. |
| BotText.DisplayRoundTrip | bot.js:93 | Normalising the shown form of a stored expression (first "sqrt" written "√") gives the stored expression back. |
| BotText.StrToHanshinExample | bot.js:69-93 | With the initial table, "３３４" is answered with "334" and the store is unchanged. |
| BotText.SmallNumberInvalid | bot.js:258 | The text of a number from 1 to 100 is unchanged by normalisation and is never a Hanshin expression. |
| BotText.SmallNumberLeavesStore | bot.js:258 | Showing a number from 1 to 100 leaves the store unchanged. |
| BotText.FizzBuzz | bot.js:255-258 | There is no reply exactly when the value is negative, and then the store is unchanged. |
| BotText.FizzBuzzLineSpec | bot.js:258 | Line n (1 to 100) is the classic reading ("FizzBuzz", "Fizz", "Buzz" or the number as `str_to_hanshin` shows it), and the store is unchanged. |
| BotText.FizzBuzzLinesSpec | bot.js:258 | Lines lo to hi are the classic readings in order, and the store is unchanged. |
| BotText.FizzBuzzSpec | bot.js:257-258 | For v >= 0 the reply is the classic readings of 1 to min(v, 100), one per line, and the store is unchanged. |
| BotText.FizzBuzzWords | bot.js:258 | Line 15 reads "FizzBuzz", line 3 "Fizz" and line 5 "Buzz". |

## Left out

- **Persistence and logging.** Loading and saving the table file
  (`load`, `save`) and the `console.log` calls are left out. A call
  simply returns the table after it.
- **Chat handling.** Everything else `bot.js` does (Botkit, the scheduled
  messages, date formatting) is not part of this model.
- **Arithmetic.** Arithmetic (mathjs with 64-digit big numbers) is the
  evaluator parameter. This includes the conversion `math.number` makes
  to a double before the integer test.
- **Keys of the hash.** The source keys the hash by the property name
  of a number. The model keys it by the integer. The two agree because
  distinct integers have distinct property names.
- Common.Decimal: the exponent form JavaScript uses for integers of 10^21
  and above is not modelled.
- HanshinStore.GetLatestWinner: the enumeration order of `Object.keys` (numeric-looking
  keys first, then insertion order) is not modelled. The caller supplies
  the order as any enumeration of the ledger's identities. Times are
  integers, in milliseconds, given by the caller instead of read from the
  clock.
- HanshinStore.AddWinner: the current time is a parameter, not read from the clock.
  The member models the intended ledger, keyed by own entries only. The
  code as written treats names inherited from `Object.prototype`
  differently; that behaviour is `HanshinStore.AddWinnerAsWritten` (see
  Findings). For "__proto__" it also writes `count` and `updated` onto
  `Object.prototype`, so every object inherits them from then on. That
  later effect is not modelled.
- HanshinStore.GetWinner: models the intended lookup. The code as written
  returns the inherited member for names such as "toString"; that is
  `HanshinStore.GetWinnerAsWritten` (see Findings).
- BotText.StrToHanshin: the branch for text that only contains an expression
  (bot.js:94-110) is not modelled. The match is anchored, so the matched
  text always equals the whole string and that branch is never taken.
  `StrToHanshin` itself carries no `ensures`. Its properties are stated
  by `BotText.StrToHanshinSpec`.
- BotText.FizzBuzz: the request pattern and the loop over its match
  (bot.js:250-256) are not modelled. That loop also offers the whole
  message "fizzbuzz …" to `expr_to_v`, which refuses it because it lies
  outside the character class and is assumed not to evaluate. The model
  starts from the integer value of the argument. For a negative value
  `Array(v)` throws a RangeError, and the model gives no reply. The
  exception is not caught. It escapes the `forEach` over the lines of the
  message (bot.js:204), so the lines after it get no reply either. The
  model covers one line and does not state that effect.
- BotText.Normalize: `split("")` cuts UTF-16 code units, and the model works
  on characters. Every table entry is a single code unit, and other code
  units pass unchanged, so the result is the same.
- XorShift.New: only integer seeds are modelled. The bot seeds the
  generator with a time in milliseconds.
- XorShift.NextInt: a non-integer bound is not modelled. A zero span
  gives NaN in the code and is `None` here.
- BotDice.Split: its own contract states only the odd length. The
  content is stated by `BotDice.SplitJoin`.

## Findings

| source | as written | input that shows it | evidently intended | confidence | as-written member | corrected member |
|---|---|---|---|---|---|---|
| hanshin.js:58-69 | `id in this.db.winner` is also true for names inherited from `Object.prototype`. For such a name the count and time are written onto the inherited member, and no record is made. | `addWinner("constructor")` with no such record: the ledger is unchanged and the returned number does not grow | a first win creates a record with count 1 and raises the number of identities by one | not executed; high | HanshinStore.AddWinnerAsWritten, HanshinStore.ConstructorNotRecorded | HanshinStore.AddWinner, HanshinStore.AddWinnerCounts |
| hanshin.js:74 | `id in this.db.winner` finds inherited names, and the inherited member is returned as if it were a record | `getWinner("toString")` (the command `winner toString`, bot.js:217) returns a function instead of `null` | `null` for every identity without a record | not executed; high | HanshinStore.GetWinnerAsWritten, HanshinStore.ToStringFound | HanshinStore.GetWinner |
