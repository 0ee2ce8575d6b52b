/**
 * `ExpensesLoader.import_expenses`: fold the lines of a text file into the
 * caller's ledger. A line contributes when, stripped, it is non-empty, holds
 * exactly one colon, and its stripped right part parses as a number; the
 * stripped left part is the (case-sensitive) expense type.
 */
module ExpensesLoader {
  import opened Wrappers
  import opened Text
  import opened ExpenseLedger

  predicate IsDigit(c: char)
  {
    '0' <= c <= '9'
  }

  predicate AllDigits(s: string)
  {
    forall i :: 0 <= i < |s| ==> IsDigit(s[i])
  }

  /** The number a run of decimal digits denotes. */
  function DigitsValue(s: string): nat
    requires AllDigits(s)
  {
    if s == [] then 0 else DigitsValue(s[..|s| - 1]) * 10 + (s[|s| - 1] as int - '0' as int)
  }

  function Pow10(n: nat): (r: nat)
    ensures r >= 1
  {
    if n == 0 then 1 else 10 * Pow10(n - 1)
  }

  /** The first index at which `s` holds one of `marks`. */
  function IndexOfAny(s: string, marks: set<char>): (r: Option<nat>)
    ensures r.None? ==> forall k :: 0 <= k < |s| ==> s[k] !in marks
    ensures r.Some? ==> r.value < |s| && s[r.value] in marks
    ensures r.Some? ==> forall k :: 0 <= k < r.value ==> s[k] !in marks
  {
    if s == [] then None
    else if s[0] in marks then Some(0)
    else match IndexOfAny(s[1..], marks)
      case None => None
      case Some(i) => Some(i + 1)
  }

  /** `n` times ten to the power `e`. */
  function Scaled(n: int, e: int): real
    decreases if e < 0 then -e else e
  {
    if e == 0 then n as real
    else if e > 0 then Scaled(n, e - 1) * 10.0
    else Scaled(n, e + 1) / 10.0
  }

  /**
   * `digits`, `digits.`, `digits.digits` or `.digits`: all its digits read
   * as one number, and how many of them follow the point.
   */
  function ParseMantissa(m: string): Option<(nat, nat)>
  {
    match IndexOfAny(m, {'.'})
    case None =>
      if |m| > 0 && AllDigits(m) then Some((DigitsValue(m), 0)) else None
    case Some(i) =>
      var whole, frac := m[..i], m[i + 1..];
      if AllDigits(whole) && AllDigits(frac) && |whole| + |frac| > 0
      then Some((DigitsValue(whole + frac), |frac|))
      else None
  }

  /** An optionally signed run of digits after `e` or `E`. */
  function ParseExponent(e: string): Option<int>
  {
    var negative := |e| > 0 && e[0] == '-';
    var digits := if |e| > 0 && (e[0] == '+' || e[0] == '-') then e[1..] else e;
    if |digits| > 0 && AllDigits(digits)
    then Some(if negative then -(DigitsValue(digits) as int) else DigitsValue(digits))
    else None
  }

  /**
   * `float(s)` on an already stripped string, for the decimal notation:
   * an optional sign, a mantissa, and an optional exponent.
   */
  function ParseAmount(s: string): Option<real>
  {
    var negative := |s| > 0 && s[0] == '-';
    var body := if |s| > 0 && (s[0] == '+' || s[0] == '-') then s[1..] else s;
    match ParseMagnitude(body)
    case None => None
    case Some(x) => Some(if negative then -x else x)
  }

  /** An unsigned number: a mantissa, then optionally `e` or `E` and an exponent. */
  function ParseMagnitude(body: string): Option<real>
  {
    match IndexOfAny(body, {'e', 'E'})
    case None =>
      (match ParseMantissa(body)
       case None => None
       case Some((n, k)) => Some(Scaled(n, -(k as int))))
    case Some(i) =>
      (match (ParseMantissa(body[..i]), ParseExponent(body[i + 1..]))
       case (Some((n, k)), Some(e)) => Some(Scaled(n, e - k as int))
       case _ => None)
  }

  /** The decimal digits of `n`, as `str(n)` writes them. */
  function DecimalString(n: nat): (r: string)
    ensures |r| > 0 && AllDigits(r) && DigitsValue(r) == n
  {
    var digit := ['0' + (n % 10) as char];
    if n < 10 then digit
    else
      var r := DecimalString(n / 10) + digit;
      assert r[..|r| - 1] == DecimalString(n / 10);
      r
  }

  lemma {:induction false} NoMarkIn(s: string, marks: set<char>)
    requires AllDigits(s) && forall c :: c in marks ==> !IsDigit(c)
    ensures IndexOfAny(s, marks) == None
  {
    if s != [] {
      assert IsDigit(s[0]);
      assert AllDigits(s[1..]) by {
        forall k | 0 <= k < |s[1..]| ensures IsDigit(s[1..][k]) { assert s[1..][k] == s[k + 1]; }
      }
      NoMarkIn(s[1..], marks);
    }
  }

  /** Without a sign, the whole string is the magnitude. */
  lemma ParseUnsigned(s: string)
    requires |s| > 0 && s[0] != '+' && s[0] != '-'
    ensures ParseAmount(s) == ParseMagnitude(s)
  {
  }

  /** A leading minus negates what follows. */
  lemma {:induction false} ParseNegated(s: string)
    ensures ParseAmount("-" + s) == match ParseMagnitude(s)
                                    case None => None
                                    case Some(x) => Some(-x)
  {
    assert ("-" + s)[1..] == s;
  }

  /** Without an exponent mark, the magnitude is the mantissa alone. */
  lemma MagnitudeWithoutExponent(s: string)
    requires IndexOfAny(s, {'e', 'E'}) == None
    ensures ParseMagnitude(s) == match ParseMantissa(s)
                                 case None => None
                                 case Some((n, k)) => Some(Scaled(n, -(k as int)))
  {
  }

  /** `float(str(n)) == n` and `float("-" + str(n)) == -n`. */
  lemma {:induction false} ParseWholeNumber(n: nat)
    ensures ParseAmount(DecimalString(n)) == Some(n as real)
    ensures ParseAmount("-" + DecimalString(n)) == Some(-(n as real))
  {
    var s := DecimalString(n);
    NoMarkIn(s, {'e', 'E'});
    NoMarkIn(s, {'.'});
    assert IsDigit(s[0]);
    ParseUnsigned(s);
    ParseNegated(s);
    MagnitudeWithoutExponent(s);
  }

  lemma {:induction false} DigitsValueAppend(a: string, b: string)
    requires AllDigits(a) && AllDigits(b)
    ensures AllDigits(a + b)
    ensures DigitsValue(a + b) == DigitsValue(a) * Pow10(|b|) + DigitsValue(b)
  {
    if b == [] {
      assert a + b == a;
    } else {
      var init := b[..|b| - 1];
      DigitsValueAppend(a, init);
      assert (a + b)[..|a + b| - 1] == a + init;
      assert (a + b)[|a + b| - 1] == b[|b| - 1];
      var digit := b[|b| - 1] as int - '0' as int;
      assert DigitsValue(a + b) == DigitsValue(a + init) * 10 + digit;
      assert DigitsValue(b) == DigitsValue(init) * 10 + digit;
      assert Pow10(|b|) == Pow10(|init|) * 10;
      ShiftDigit(DigitsValue(a), Pow10(|init|), DigitsValue(init), digit);
    }
  }

  lemma ShiftDigit(v: int, p: int, w: int, d: int)
    ensures (v * p + w) * 10 + d == v * (p * 10) + (w * 10 + d)
  {
  }

  lemma {:induction false} ScaledDown(n: int, k: nat)
    ensures Scaled(n, -(k as int)) == n as real / Pow10(k) as real
  {
    if k > 0 {
      ScaledDown(n, k - 1);
      var p := Pow10(k - 1) as real;
      assert Pow10(k) as real == p * 10.0;
      assert (n as real / p) / 10.0 == n as real / (p * 10.0);
    }
  }

  lemma MantissaWithPoint(ws: string, fs: string)
    requires AllDigits(ws) && AllDigits(fs) && |ws| > 0
    ensures ParseMantissa(ws + "." + fs) == Some((DigitsValue(ws + fs), |fs|))
  {
    var s := ws + "." + fs;
    assert s == ws + ("." + fs);
    IndexOfPrefix(ws, "." + fs, {'.'});
    assert s[..|ws|] == ws && s[|ws| + 1..] == fs;
  }

  /** Digits around a point hold no exponent mark. */
  lemma {:induction false} DecimalHasNoExponent(ws: string, fs: string)
    requires AllDigits(ws) && AllDigits(fs)
    ensures IndexOfAny(ws + "." + fs, {'e', 'E'}) == None
  {
    var s := ws + "." + fs;
    forall k | 0 <= k < |s| ensures s[k] != 'e' && s[k] != 'E' {
      if k < |ws| {
        assert s[k] == ws[k] && IsDigit(ws[k]);
      } else if k > |ws| {
        assert s[k] == fs[k - |ws| - 1] && IsDigit(fs[k - |ws| - 1]);
      }
    }
    NoMarkBy(s, {'e', 'E'});
  }

  /** `float(ws + "." + fs)` reads all the digits as one number and shifts it right by `|fs|` places. */
  lemma {:induction false} ParseDecimalDigits(ws: string, fs: string)
    requires AllDigits(ws) && AllDigits(fs) && |ws| > 0
    ensures AllDigits(ws + fs)
    ensures ParseAmount(ws + "." + fs) == Some(Scaled(DigitsValue(ws + fs), -(|fs| as int)))
  {
    var s := ws + "." + fs;
    DigitsValueAppend(ws, fs);
    DecimalHasNoExponent(ws, fs);
    assert s[0] == ws[0] && IsDigit(ws[0]);
    ParseUnsigned(s);
    MagnitudeWithoutExponent(s);
    MantissaWithPoint(ws, fs);
  }

  /** Shifting all the digits right by `|fs|` places puts the point between `ws` and `fs`. */
  lemma {:induction false} ScaledDigits(ws: string, fs: string)
    requires AllDigits(ws) && AllDigits(fs)
    ensures AllDigits(ws + fs)
    ensures Scaled(DigitsValue(ws + fs), -(|fs| as int))
            == DigitsValue(ws) as real + DigitsValue(fs) as real / Pow10(|fs|) as real
  {
    DigitsValueAppend(ws, fs);
    ScaledDown(DigitsValue(ws + fs), |fs|);
    ShiftedFraction(DigitsValue(ws), DigitsValue(fs), Pow10(|fs|));
  }

  /** `float(str(w) + "." + str(f))` is `w` plus `f` scaled to the width of its digits. */
  lemma {:induction false} ParseDecimalNumber(w: nat, f: nat)
    ensures ParseAmount(DecimalString(w) + "." + DecimalString(f))
            == Some(w as real + f as real / Pow10(|DecimalString(f)|) as real)
  {
    var ws, fs := DecimalString(w), DecimalString(f);
    ParseDecimalDigits(ws, fs);
    ScaledDigits(ws, fs);
  }

  lemma ShiftedFraction(w: int, f: int, q: int)
    requires q > 0
    ensures (w * q + f) as real / q as real == w as real + f as real / q as real
  {
    var p := q as real;
    assert (w * q) as real == w as real * p;
    assert (w as real * p + f as real) / p == w as real * p / p + f as real / p;
  }

  lemma {:induction false} NoMarkBy(s: string, marks: set<char>)
    requires forall k :: 0 <= k < |s| ==> s[k] !in marks
    ensures IndexOfAny(s, marks) == None
  {
    if s != [] {
      assert forall k :: 0 <= k < |s[1..]| ==> s[1..][k] == s[k + 1];
      NoMarkBy(s[1..], marks);
    }
  }

  lemma {:induction false} IndexOfPrefix(p: string, t: string, marks: set<char>)
    requires AllDigits(p) && |t| > 0 && t[0] in marks
    requires forall c :: c in marks ==> !IsDigit(c)
    ensures IndexOfAny(p + t, marks) == Some(|p|)
  {
    if p == [] {
      assert p + t == t;
    } else {
      assert (p + t)[0] == p[0] && IsDigit(p[0]);
      assert (p + t)[1..] == p[1..] + t;
      IndexOfPrefix(p[1..], t, marks);
    }
  }

  /** The digits of `n`, optionally after a sign, read as an exponent. */
  lemma {:induction false} ExponentDigits(n: nat)
    ensures ParseExponent(DecimalString(n)) == Some(n as int)
    ensures ParseExponent("-" + DecimalString(n)) == Some(-(n as int))
    ensures ParseExponent("+" + DecimalString(n)) == Some(n as int)
  {
    var s := DecimalString(n);
    assert IsDigit(s[0]);
    assert ("-" + s)[1..] == s;
    assert ("+" + s)[1..] == s;
  }

  /** `float(str(m) + mark + exponent)` is `m` times ten to that exponent. */
  lemma {:induction false} ParseWithExponent(m: nat, mark: char, e: string, x: int, s: string)
    requires mark == 'e' || mark == 'E'
    requires ParseExponent(e) == Some(x)
    requires s == DecimalString(m) + [mark] + e
    ensures ParseAmount(s) == Some(Scaled(m, x))
  {
    var ms := DecimalString(m);
    MagnitudeWithExponent(ms, mark, e, x, s);
    assert s[0] == ms[0] && IsDigit(ms[0]);
    ParseUnsigned(s);
  }

  /** A run of digits with an exponent after it is that number scaled by the exponent. */
  lemma {:induction false} MagnitudeWithExponent(ms: string, mark: char, e: string, x: int, s: string)
    requires AllDigits(ms) && |ms| > 0
    requires mark == 'e' || mark == 'E'
    requires ParseExponent(e) == Some(x)
    requires s == ms + [mark] + e
    ensures ParseMagnitude(s) == Some(Scaled(DigitsValue(ms), x))
  {
    var i := |ms|;
    assert s == ms + ([mark] + e);
    IndexOfPrefix(ms, [mark] + e, {'e', 'E'});
    assert s[..i] == ms && s[i + 1..] == e;
    MantissaWhole(ms);
    MagnitudeAtMark(s, i, DigitsValue(ms), x);
  }

  /** A run of digits without a point is a mantissa with no fraction digits. */
  lemma MantissaWhole(ms: string)
    requires AllDigits(ms) && |ms| > 0
    ensures ParseMantissa(ms) == Some((DigitsValue(ms), 0))
  {
    NoMarkIn(ms, {'.'});
  }

  lemma MagnitudeAtMark(s: string, i: nat, n: nat, x: int)
    requires IndexOfAny(s, {'e', 'E'}) == Some(i)
    requires ParseMantissa(s[..i]) == Some((n, 0))
    requires ParseExponent(s[i + 1..]) == Some(x)
    ensures ParseMagnitude(s) == Some(Scaled(n, x))
  {
  }

  /** `float(str(m) + "e" + str(n)) == m * 10^n` and `float(str(m) + "e-" + str(n)) == m / 10^n`. */
  lemma {:induction false} ParseScientific(m: nat, n: nat)
    ensures ParseAmount(DecimalString(m) + "e" + DecimalString(n)) == Some(Scaled(m, n))
    ensures ParseAmount(DecimalString(m) + "e-" + DecimalString(n)) == Some(Scaled(m, -(n as int)))
  {
    PositiveExponent(m, n);
    NegativeExponent(m, n);
  }

  lemma {:induction false} PositiveExponent(m: nat, n: nat)
    ensures ParseAmount(DecimalString(m) + "e" + DecimalString(n)) == Some(Scaled(m, n))
  {
    ExponentDigits(n);
    ParseWithExponent(m, 'e', DecimalString(n), n, DecimalString(m) + "e" + DecimalString(n));
  }

  lemma {:induction false} NegativeExponent(m: nat, n: nat)
    ensures ParseAmount(DecimalString(m) + "e-" + DecimalString(n)) == Some(Scaled(m, -(n as int)))
  {
    var ms, ns := DecimalString(m), DecimalString(n);
    var e, s := "-" + ns, ms + "e-" + ns;
    assert ParseExponent(e) == Some(-(n as int)) by {
      ExponentDigits(n);
    }
    assert s == ms + ['e'] + e;
    ParseWithExponent(m, 'e', e, -(n as int), s);
  }




  /**
   * One line of the file: `None` when it is skipped, otherwise the stripped
   * expense type and the parsed amount.
   */
  function ParseLine(line: string): Option<(string, real)>
  {
    var stripped := Strip(line);
    if stripped == [] then None
    else
      var parts := Split(stripped, ':');
      if |parts| != 2 then None
      else
        match ParseAmount(Strip(parts[1]))
        case None => None
        case Some(amount) => Some((Strip(parts[0]), amount))
  }

  /** A line without exactly one colon is skipped (splitting it does not give two parts). */
  lemma {:induction false} ParseLineNeedsOneColon(line: string)
    requires Count(line, ':') != 1
    ensures ParseLine(line) == None
  {
    StripKeepsCount(line, ':');
  }

  /** A line without a colon is skipped. */
  lemma ParseLineNoColon(line: string)
    requires ':' !in line
    ensures ParseLine(line) == None
  {
    CountIn(line, ':');
    ParseLineNeedsOneColon(line);
  }

  /**
   * A stripped line `left:right` with no other colon yields the stripped
   * `left` as its type and the parse of the stripped `right`; the line is
   * skipped when that parse fails.
   */
  lemma {:induction false} ParseLineAccepts(line: string, left: string, right: string)
    requires Strip(line) == left + ":" + right
    requires ':' !in left && ':' !in right
    ensures ParseLine(line) == match ParseAmount(Strip(right))
                               case None => None
                               case Some(amount) => Some((Strip(left), amount))
  {
    SplitJoin([left, right], ':');
    assert Join([left, right], ':') == left + ":" + right by {
      assert [left, right][1..] == [right];
    }
  }

  /** Every accepted line has that shape. */
  lemma {:induction false} ParseLineSound(line: string)
    requires ParseLine(line).Some?
    ensures exists left, right ::
              && Strip(line) == left + ":" + right
              && ':' !in left && ':' !in right
              && ParseAmount(Strip(right)).Some?
              && ParseLine(line) == Some((Strip(left), ParseAmount(Strip(right)).value))
  {
    var parts := Split(Strip(line), ':');
    JoinSplit(Strip(line), ':');
    assert parts[1..] == [parts[1]];
    assert Strip(line) == parts[0] + ":" + parts[1];
  }

  /** One parsed line merged into the dictionary; a skipped line changes nothing. */
  function Merge(d: Dict, entry: Option<(string, real)>): Dict
  {
    match entry
    case None => d
    case Some((expenseType, amount)) => Accumulate(d, expenseType, amount)
  }

  /** Parsed lines merged in order. */
  function MergeAll(d: Dict, entries: seq<Option<(string, real)>>): Dict
  {
    if entries == [] then d
    else Merge(MergeAll(d, entries[..|entries| - 1]), entries[|entries| - 1])
  }

  /** Every line of the file, parsed. */
  function Parsed(lines: seq<string>): (r: seq<Option<(string, real)>>)
    ensures |r| == |lines| && forall i :: 0 <= i < |lines| ==> r[i] == ParseLine(lines[i])
  {
    seq(|lines|, i requires 0 <= i < |lines| => ParseLine(lines[i]))
  }

  /** The dictionary after importing `lines` in order. */
  function ImportAll(d: Dict, lines: seq<string>): Dict
  {
    MergeAll(d, Parsed(lines))
  }

  /** The expense types of the accepted entries. */
  function Types(entries: seq<Option<(string, real)>>): set<string>
  {
    if entries == [] then {}
    else
      Types(entries[..|entries| - 1])
      + match entries[|entries| - 1]
        case None => {}
        case Some((expenseType, _)) => {expenseType}
  }

  /** The sum of the amounts the accepted entries give to `expenseType`. */
  function Total(entries: seq<Option<(string, real)>>, expenseType: string): real
  {
    if entries == [] then 0.0
    else
      Total(entries[..|entries| - 1], expenseType)
      + match entries[|entries| - 1]
        case Some((t, amount)) => if t == expenseType then amount else 0.0
        case None => 0.0
  }

  /** The amount `expenseType` has in `d`, zero when absent. */
  function Prior(d: Dict, expenseType: string): real
  {
    if expenseType in d.records then d.records[expenseType].amount else 0.0
  }

  /** Merging keeps the dictionary invariant. */
  lemma {:induction false} MergeAllWellformed(d: Dict, entries: seq<Option<(string, real)>>)
    requires Wellformed(d)
    ensures Wellformed(MergeAll(d, entries))
  {
    if entries != [] {
      MergeAllWellformed(d, entries[..|entries| - 1]);
    }
  }

  /**
   * After merging, every type holds its prior amount plus the sum of its
   * accepted entries, and the types present are the prior ones together
   * with those of the accepted entries.
   */
  lemma {:induction false} MergeAllTotals(d: Dict, entries: seq<Option<(string, real)>>, expenseType: string)
    ensures expenseType in MergeAll(d, entries).records <==> expenseType in d.records || expenseType in Types(entries)
    ensures Prior(MergeAll(d, entries), expenseType) == Prior(d, expenseType) + Total(entries, expenseType)
  {
    if entries != [] {
      MergeAllTotals(d, entries[..|entries| - 1], expenseType);
    }
  }

  /** Types already present keep their places; new types are appended. */
  lemma {:induction false} MergeAllOrder(d: Dict, entries: seq<Option<(string, real)>>)
    ensures |d.order| <= |MergeAll(d, entries).order|
    ensures MergeAll(d, entries).order[..|d.order|] == d.order
  {
    if entries != [] {
      var mid := MergeAll(d, entries[..|entries| - 1]);
      MergeAllOrder(d, entries[..|entries| - 1]);
      var r := MergeAll(d, entries);
      assert r.order[..|mid.order|] == mid.order;
      assert r.order[..|d.order|] == mid.order[..|d.order|];
    }
  }

  /**
   * The expense types of the accepted entries that are not in `known`, each
   * once, in the order of its first accepted entry.
   */
  function FirstSeen(known: set<string>, entries: seq<Option<(string, real)>>): seq<string>
    decreases |entries|
  {
    if entries == [] then []
    else match entries[0]
      case None => FirstSeen(known, entries[1..])
      case Some((t, _)) =>
        if t in known then FirstSeen(known, entries[1..]) else [t] + FirstSeen(known + {t}, entries[1..])
  }

  /** Merging appends the new types after the old ones, in the order of their first accepted line. */
  lemma {:induction false} MergeAllOrderExact(d: Dict, entries: seq<Option<(string, real)>>)
    ensures MergeAll(d, entries).order == d.order + FirstSeen(d.records.Keys, entries)
    decreases |entries|
  {
    if entries == [] {
      assert d.order + [] == d.order;
    } else {
      var rest := entries[1..];
      var d' := Merge(d, entries[0]);
      assert entries == [entries[0]] + rest;
      assert MergeAll(d, [entries[0]]) == d' by {
        assert [entries[0]][..0] == [];
      }
      MergeAllConcat(d, [entries[0]], rest);
      MergeAllOrderExact(d', rest);
      match entries[0]
      case None =>
      case Some((t, _)) =>
        if t in d.records {
          assert d'.records.Keys == d.records.Keys;
        } else {
          assert d'.records.Keys == d.records.Keys + {t};
          assert d'.order + FirstSeen(d'.records.Keys, rest) == d.order + ([t] + FirstSeen(d.records.Keys + {t}, rest));
        }
    }
  }

  /** Merging `a` and then `b` is merging `a + b`. */
  lemma {:induction false} MergeAllConcat(d: Dict, a: seq<Option<(string, real)>>, b: seq<Option<(string, real)>>)
    ensures MergeAll(MergeAll(d, a), b) == MergeAll(d, a + b)
  {
    if b == [] {
      assert a + b == a;
    } else {
      MergeAllConcat(d, a, b[..|b| - 1]);
      assert (a + b)[..|a + b| - 1] == a + b[..|b| - 1];
      assert (a + b)[|a + b| - 1] == b[|b| - 1];
    }
  }

  lemma {:induction false} TotalConcat(a: seq<Option<(string, real)>>, b: seq<Option<(string, real)>>, expenseType: string)
    ensures Total(a + b, expenseType) == Total(a, expenseType) + Total(b, expenseType)
  {
    if b == [] {
      assert a + b == a;
    } else {
      TotalConcat(a, b[..|b| - 1], expenseType);
      assert (a + b)[..|a + b| - 1] == a + b[..|b| - 1];
      assert (a + b)[|a + b| - 1] == b[|b| - 1];
    }
  }

  lemma {:induction false} ParsedConcat(a: seq<string>, b: seq<string>)
    ensures Parsed(a + b) == Parsed(a) + Parsed(b)
  {
    assert forall i :: 0 <= i < |a| ==> (a + b)[i] == a[i];
    assert forall i :: |a| <= i < |a + b| ==> (a + b)[i] == b[i - |a|];
  }

  lemma MergeAllSnoc(d: Dict, entries: seq<Option<(string, real)>>, entry: Option<(string, real)>)
    ensures MergeAll(d, entries + [entry]) == Merge(MergeAll(d, entries), entry)
  {
    assert (entries + [entry])[..|entries|] == entries;
  }

  lemma {:induction false} ParsedSnoc(lines: seq<string>, i: nat)
    requires i < |lines|
    ensures Parsed(lines[..i + 1]) == Parsed(lines[..i]) + [ParseLine(lines[i])]
  {
    assert lines[..i + 1] == lines[..i] + [lines[i]];
    ParsedConcat(lines[..i], [lines[i]]);
  }

  /** Importing keeps the dictionary invariant. */
  lemma {:induction false} ImportAllWellformed(d: Dict, lines: seq<string>)
    requires Wellformed(d)
    ensures Wellformed(ImportAll(d, lines))
  {
    MergeAllWellformed(d, Parsed(lines));
  }

  /**
   * Per type, an import adds the amounts of the type's accepted lines to its
   * prior total, creating the type when it was absent; the key set grows by
   * exactly the types of the accepted lines, and existing keys keep their
   * places in the iteration order.
   */
  lemma {:induction false} ImportAllTotals(d: Dict, lines: seq<string>, expenseType: string)
    ensures expenseType in ImportAll(d, lines).records <==> expenseType in d.records || expenseType in Types(Parsed(lines))
    ensures Prior(ImportAll(d, lines), expenseType) == Prior(d, expenseType) + Total(Parsed(lines), expenseType)
    ensures |d.order| <= |ImportAll(d, lines).order| && ImportAll(d, lines).order[..|d.order|] == d.order
  {
    MergeAllTotals(d, Parsed(lines), expenseType);
    MergeAllOrder(d, Parsed(lines));
  }

  /** A second import into the same ledger adds to the totals of the first. */
  lemma {:induction false} TwoImportsAccumulate(d: Dict, first: seq<string>, second: seq<string>, expenseType: string)
    ensures ImportAll(ImportAll(d, first), second) == ImportAll(d, first + second)
    ensures Prior(ImportAll(ImportAll(d, first), second), expenseType)
            == Prior(d, expenseType) + Total(Parsed(first), expenseType) + Total(Parsed(second), expenseType)
  {
    ParsedConcat(first, second);
    MergeAllConcat(d, Parsed(first), Parsed(second));
    MergeAllTotals(d, Parsed(first) + Parsed(second), expenseType);
    TotalConcat(Parsed(first), Parsed(second), expenseType);
  }

  lemma {:induction false} ImportStep(d: Dict, lines: seq<string>, i: nat)
    requires i < |lines|
    ensures MergeAll(d, Parsed(lines[..i + 1])) == Merge(MergeAll(d, Parsed(lines[..i])), ParseLine(lines[i]))
  {
    ParsedSnoc(lines, i);
    MergeAllSnoc(d, Parsed(lines[..i]), ParseLine(lines[i]));
  }

  lemma AccumulateExisting(d: Dict, expenseType: string, value: real)
    requires expenseType in d.records
    ensures Accumulate(d, expenseType, value)
            == Put(d, expenseType, d.records[expenseType].(amount := d.records[expenseType].amount + value))
  {
  }

  /**
   * One pass of the loop in `import_expenses`: a line that does not parse is
   * skipped, otherwise its amount is added to its type's record or makes a new one.
   */
  method ImportLine(l: Ledger, line: string)
    requires l.Valid()
    modifies l
    ensures l.Valid()
    ensures l.Snapshot() == Merge(old(l.Snapshot()), ParseLine(line))
  {
    var entry := ParseLine(line);
    if entry.None? {
      return;
    }
    var (expenseType, amount) := entry.value;
    MergeEntry(l, expenseType, amount);
  }

  /** The end of the loop body: add to the existing record, or file a new one. */
  method MergeEntry(l: Ledger, expenseType: string, amount: real)
    requires l.Valid()
    modifies l
    ensures l.Valid()
    ensures l.Snapshot() == Accumulate(old(l.Snapshot()), expenseType, amount)
  {
    ghost var before := l.Snapshot();
    if expenseType in l.records {
      var expense := l.records[expenseType];
      var updated := expense.(amount := expense.amount + amount);
      AccumulateExisting(before, expenseType, amount);
      assert updated == before.records[expenseType].(amount := before.records[expenseType].amount + amount);
      l.Store(expenseType, updated);
    } else {
      assert Accumulate(before, expenseType, amount) == Put(before, expenseType, Expense(expenseType, amount));
      l.Store(expenseType, Expense(expenseType, amount));
    }
  }

  /** `import_expenses`, reading the file's lines in order. */
  method ImportExpenses(l: Ledger, lines: seq<string>)
    requires l.Valid()
    modifies l
    ensures l.Valid()
    ensures l.Snapshot() == ImportAll(old(l.Snapshot()), lines)
  {
    for i := 0 to |lines|
      invariant l.Valid()
      invariant l.Snapshot() == MergeAll(old(l.Snapshot()), Parsed(lines[..i]))
    {
      ImportStep(old(l.Snapshot()), lines, i);
      ImportLine(l, lines[i]);
    }
    assert lines[..|lines|] == lines;
  }
}
