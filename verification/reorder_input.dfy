/**
 * The reorder entry: `parseMove` reads "a b" or "a->b" as two 1-based
 * positions, and each entry of the reorder dialog moves the task at
 * position a to position b. The entry text is read as the sequence of
 * Unicode code points Go decodes it into, since strings.Fields classifies
 * white space per decoded rune; strconv.Atoi accepts only ASCII digits.
 */
module ReorderInput {
  import opened Results
  import opened QueueStore
  import QueueOrder

  /** The range of Go's 64-bit int. */
  const MinInt: int := -0x8000_0000_0000_0000
  const MaxInt: int := 0x7FFF_FFFF_FFFF_FFFF

  /** unicode.IsSpace: the code points with Unicode's White_Space property. */
  predicate IsSpace(c: char) {
    var u := c as int;
    (0x09 <= u <= 0x0D) || u == 0x20 || u == 0x85 || u == 0xA0 || u == 0x1680
    || (0x2000 <= u <= 0x200A) || u == 0x2028 || u == 0x2029 || u == 0x202F
    || u == 0x205F || u == 0x3000
  }

  predicate NoSpace(s: string) {
    forall i | 0 <= i < |s| :: !IsSpace(s[i])
  }

  /** The code points of `s` that are not white space, in order. */
  function NonSpace(s: string): (r: string)
    ensures NoSpace(r)
  {
    if s == [] then [] else (if IsSpace(s[0]) then [] else [s[0]]) + NonSpace(s[1..])
  }

  function Concat(ss: seq<string>): string {
    if ss == [] then [] else ss[0] + Concat(ss[1..])
  }

  /** strings.TrimSpace */
  function TrimSpace(s: string): (r: string)
    ensures r == [] <==> forall i | 0 <= i < |s| :: IsSpace(s[i])
    ensures r == [] || (!IsSpace(r[0]) && !IsSpace(r[|r| - 1]))
    ensures |r| <= |s|
    decreases |s|
  {
    if s == [] then []
    else if IsSpace(s[0]) then TrimSpace(s[1..])
    else if IsSpace(s[|s| - 1]) then TrimSpace(s[..|s| - 1])
    else s
  }

  /**
   * TrimSpace removes exactly the white space around the text: what is left
   * is the text between the leading and the trailing white space.
   */
  lemma {:induction false} TrimSpaceDropsSurroundingSpace(p: string, m: string, q: string)
    requires forall i | 0 <= i < |p| :: IsSpace(p[i])
    requires forall i | 0 <= i < |q| :: IsSpace(q[i])
    requires m != [] && !IsSpace(m[0]) && !IsSpace(m[|m| - 1])
    ensures TrimSpace(p + m + q) == m
    decreases |p| + |q|
  {
    var s := p + m + q;
    if p != [] {
      assert s[0] == p[0];
      assert s[1..] == p[1..] + m + q;
      TrimSpaceDropsSurroundingSpace(p[1..], m, q);
    } else if q != [] {
      assert s == m + q;
      assert s[|s| - 1] == q[|q| - 1];
      assert s[..|s| - 1] == p + m + q[..|q| - 1];
      TrimSpaceDropsSurroundingSpace(p, m, q[..|q| - 1]);
    } else {
      assert s == m;
    }
  }

  /** strings.ReplaceAll(s, "->", " "): left to right, without overlaps. */
  function ReplaceArrows(s: string): (r: string)
    ensures |r| <= |s|
    ensures forall i | 0 <= i < |r| - 1 :: !(r[i] == '-' && r[i + 1] == '>')
    ensures s != [] ==> r != [] && (r[0] == ' ' || r[0] == s[0])
    decreases |s|
  {
    if |s| >= 2 && s[0] == '-' && s[1] == '>' then " " + ReplaceArrows(s[2..])
    else if s == [] then []
    else [s[0]] + ReplaceArrows(s[1..])
  }

  /** An entry without "->" is left unchanged. */
  lemma {:induction false} ReplaceArrowsKeepsArrowFree(s: string)
    requires forall i | 0 <= i < |s| - 1 :: !(s[i] == '-' && s[i + 1] == '>')
    ensures ReplaceArrows(s) == s
    decreases |s|
  {
    if s != [] {
      var rest := s[1..];
      forall i | 0 <= i < |rest| - 1
        ensures !(rest[i] == '-' && rest[i + 1] == '>')
      {
      }
      ReplaceArrowsKeepsArrowFree(rest);
      assert [s[0]] + rest == s;
    }
  }

  /**
   * ReplaceArrows at the first arrow: the text before it is kept, the arrow
   * becomes a single space, and the rest is replaced in turn.
   */
  lemma {:induction false} ReplaceArrowsAtFirstArrow(x: string, y: string)
    requires forall i | 0 <= i < |x| - 1 :: !(x[i] == '-' && x[i + 1] == '>')
    ensures ReplaceArrows(x + "->" + y) == x + " " + ReplaceArrows(y)
    decreases |x|
  {
    if x == [] {
      assert (x + "->" + y)[2..] == y;
    } else {
      var rest := x[1..];
      var t := rest + "->" + y;
      assert x + "->" + y == [x[0]] + t;
      assert ([x[0]] + t)[1..] == t;
      assert t[0] == '-' || (|x| >= 2 && t[0] == x[1]);
      ReplaceArrowsAtFirstArrow(rest, y);
    }
  }

  /**
   * The fields of `s` (strings.Fields), where `cur` is the part of a field
   * already read: every field is non-empty and free of white space, and the
   * fields together hold exactly the non-space code points, in order.
   */
  function FieldsFrom(s: string, cur: string): (r: seq<string>)
    requires NoSpace(cur)
    ensures forall i | 0 <= i < |r| :: r[i] != [] && NoSpace(r[i])
    ensures Concat(r) == cur + NonSpace(s)
    decreases |s|
  {
    if s == [] then
      (if cur == [] then [] else assert Concat([cur]) == cur + Concat([]); [cur])
    else if IsSpace(s[0]) then
      if cur == [] then FieldsFrom(s[1..], [])
      else
        var rest := FieldsFrom(s[1..], []);
        assert ([cur] + rest)[1..] == rest;
        [cur] + rest
    else
      assert (cur + [s[0]]) + NonSpace(s[1..]) == cur + NonSpace(s);
      FieldsFrom(s[1..], cur + [s[0]])
  }

  function Fields(s: string): (r: seq<string>)
    ensures forall i | 0 <= i < |r| :: r[i] != [] && NoSpace(r[i])
    ensures Concat(r) == NonSpace(s)
  {
    FieldsFrom(s, [])
  }

  predicate IsDigit(c: char) {
    '0' <= c <= '9'
  }

  predicate AllDigits(s: string) {
    forall i | 0 <= i < |s| :: IsDigit(s[i])
  }

  /** The value of a string of decimal digits. */
  function DigitsValue(s: string): nat
    requires AllDigits(s)
  {
    if s == [] then 0
    else DigitsValue(s[..|s| - 1]) * 10 + (s[|s| - 1] as int - '0' as int)
  }

  /**
   * strconv.Atoi on a 64-bit platform: an optional sign followed by at least
   * one ASCII digit, whose value fits in an int.
   */
  function Atoi(s: string): (r: Option<int>)
    ensures r.Some? ==> MinInt <= r.value <= MaxInt
    ensures r.Some? ==> |s| > 0 && (IsDigit(s[0]) || s[0] == '+' || s[0] == '-')
    ensures r.Some? && r.value > 0 && s[0] != '+' ==> AllDigits(s) && DigitsValue(s) == r.value
    ensures r.Some? ==>
      (s != [] && AllDigits(s)) || (|s| > 1 && (s[0] == '+' || s[0] == '-') && AllDigits(s[1..]))
    ensures s != [] && AllDigits(s) ==>
      (r.Some? <==> DigitsValue(s) <= MaxInt) && (r.Some? ==> r.value == DigitsValue(s))
    ensures |s| > 1 && s[0] == '+' && AllDigits(s[1..]) ==>
      (r.Some? <==> DigitsValue(s[1..]) <= MaxInt) && (r.Some? ==> r.value == DigitsValue(s[1..]))
    ensures |s| > 1 && s[0] == '-' && AllDigits(s[1..]) ==>
      (r.Some? <==> DigitsValue(s[1..]) <= -MinInt) && (r.Some? ==> r.value == 0 - DigitsValue(s[1..]) as int)
  {
    var signed := |s| > 0 && (s[0] == '-' || s[0] == '+');
    var digits := if signed then s[1..] else s;
    if digits == [] || !AllDigits(digits) then None
    else
      var v: int := if signed && s[0] == '-' then 0 - DigitsValue(digits) as int else DigitsValue(digits);
      if MinInt <= v <= MaxInt then Some(v) else None
  }

  datatype ParseError = BadFormat | BadNumbers | NotPositive

  /**
   * parseMove: after "->" is replaced by a space the entry must split into
   * exactly two fields, both integers, both at least 1.
   */
  function ParseMove(s: string): (r: Result<(int, int), ParseError>)
    ensures r.Ok? ==> 1 <= r.value.0 <= MaxInt && 1 <= r.value.1 <= MaxInt
    ensures r.Ok? <==> (
      var fields := Fields(ReplaceArrows(s));
      && |fields| == 2
      && Atoi(fields[0]).Some? && Atoi(fields[0]).value >= 1
      && Atoi(fields[1]).Some? && Atoi(fields[1]).value >= 1)
    ensures r == Err(BadFormat) <==> |Fields(ReplaceArrows(s))| != 2
    ensures r.Ok? ==> r.value == (Atoi(Fields(ReplaceArrows(s))[0]).value, Atoi(Fields(ReplaceArrows(s))[1]).value)
    ensures r == Err(NotPositive) <==> (
      var fields := Fields(ReplaceArrows(s));
      && |fields| == 2 && Atoi(fields[0]).Some? && Atoi(fields[1]).Some?
      && (Atoi(fields[0]).value <= 0 || Atoi(fields[1]).value <= 0))
  {
    var fields := Fields(ReplaceArrows(s));
    if |fields| != 2 then Err(BadFormat)
    else match (Atoi(fields[0]), Atoi(fields[1]))
      case (Some(a), Some(b)) => if a <= 0 || b <= 0 then Err(NotPositive) else Ok((a, b))
      case _ => Err(BadNumbers)
  }

  /** The decimal numeral of `n`, without sign or leading zeros. */
  function Decimal(n: nat): (r: string)
    ensures r != [] && AllDigits(r)
  {
    var d := ['0', '1', '2', '3', '4', '5', '6', '7', '8', '9'][n % 10];
    if n < 10 then [d] else Decimal(n / 10) + [d]
  }

  lemma {:induction false} DecimalValue(n: nat)
    ensures DigitsValue(Decimal(n)) == n
  {
    var s := Decimal(n);
    if n >= 10 {
      DecimalValue(n / 10);
      assert s[..|s| - 1] == Decimal(n / 10);
    }
  }

  /** Atoi reads back every numeral Decimal writes, within int's range. */
  lemma AtoiDecimal(n: nat)
    requires n <= MaxInt
    ensures Atoi(Decimal(n)) == Some(n)
  {
    DecimalValue(n);
  }

  /** ReplaceAll leaves a dash-free prefix alone. */
  lemma {:induction false} ReplaceArrowsSkips(x: string, y: string)
    requires '-' !in x
    ensures ReplaceArrows(x + y) == x + ReplaceArrows(y)
    decreases |x|
  {
    if x != [] {
      var xy := x + y;
      assert xy[0] == x[0] && xy[0] != '-';
      assert xy[1..] == x[1..] + y;
      assert ReplaceArrows(xy) == [x[0]] + ReplaceArrows(xy[1..]);
      ReplaceArrowsSkips(x[1..], y);
      assert x == [x[0]] + x[1..];
    } else {
      assert x + y == y;
    }
  }

  /** Reading a field carries on through any run of non-space code points. */
  lemma {:induction false} FieldsFromWord(w: string, rest: string, cur: string)
    requires NoSpace(cur) && NoSpace(w)
    ensures FieldsFrom(w + rest, cur) == FieldsFrom(rest, cur + w)
    decreases |w|
  {
    if w != [] {
      var s := w + rest;
      assert s[0] == w[0] && !IsSpace(s[0]);
      assert s[1..] == w[1..] + rest;
      assert FieldsFrom(s, cur) == FieldsFrom(s[1..], cur + [w[0]]);
      assert cur + w == (cur + [w[0]]) + w[1..];
      FieldsFromWord(w[1..], rest, cur + [w[0]]);
    } else {
      assert w + rest == rest && cur + w == cur;
    }
  }

  /** A non-empty run of non-space code points is one field. */
  lemma FieldsOfWord(w: string)
    requires w != [] && NoSpace(w)
    ensures Fields(w) == [w]
  {
    FieldsFromWord(w, [], []);
    assert w + [] == w && [] + w == w;
  }

  /** Text that is all white space has no fields. */
  lemma {:induction false} FieldsOfSpaces(s: string)
    requires forall i | 0 <= i < |s| :: IsSpace(s[i])
    ensures Fields(s) == []
    decreases |s|
  {
    if s != [] {
      FieldsOfSpaces(s[1..]);
    }
  }

  /** A white-space code point ends the field being read and starts afresh. */
  lemma {:induction false} FieldsFromSplit(x: string, c: char, y: string, cur: string)
    requires NoSpace(cur) && IsSpace(c)
    ensures FieldsFrom(x + [c] + y, cur) == FieldsFrom(x, cur) + FieldsFrom(y, [])
    decreases |x|
  {
    var s := x + [c] + y;
    if x == [] {
      assert s[0] == c && s[1..] == y;
    } else {
      assert s[0] == x[0] && s[1..] == x[1..] + [c] + y;
      if IsSpace(x[0]) {
        FieldsFromSplit(x[1..], c, y, []);
      } else {
        FieldsFromSplit(x[1..], c, y, cur + [x[0]]);
      }
    }
  }

  /** Fields split exactly at white space: the fields on either side of one are kept apart. */
  lemma FieldsSplitAtSpace(x: string, c: char, y: string)
    requires IsSpace(c)
    ensures Fields(x + [c] + y) == Fields(x) + Fields(y)
  {
    FieldsFromSplit(x, c, y, []);
  }

  /** Two words separated by one space are exactly two fields. */
  lemma FieldsOfTwoWords(a: string, b: string)
    requires a != [] && b != [] && NoSpace(a) && NoSpace(b)
    ensures Fields(a + " " + b) == [a, b]
  {
    var tail := " " + b;
    assert a + " " + b == a + tail;
    FieldsFromWord(a, tail, []);
    assert [] + a == a;
    assert tail[0] == ' ' && IsSpace(tail[0]) && tail[1..] == b;
    assert FieldsFrom(tail, a) == [a] + FieldsFrom(b, []);
    FieldsFromWord(b, [], []);
    assert b + [] == b && [] + b == b;
    assert FieldsFrom(b, []) == [b];
  }

  lemma DigitsHaveNoSpace(s: string)
    requires AllDigits(s)
    ensures NoSpace(s) && '-' !in s
  {
    assert forall i | 0 <= i < |s| :: s[i] != '-';
  }

  /** Two numerals whose fields are exactly those numerals parse back to their values. */
  lemma ParseMoveOfNumerals(s: string, a: nat, b: nat)
    requires 1 <= a <= MaxInt && 1 <= b <= MaxInt
    requires Fields(ReplaceArrows(s)) == [Decimal(a), Decimal(b)]
    ensures ParseMove(s) == Ok((a, b))
  {
    AtoiDecimal(a);
    AtoiDecimal(b);
  }

  /** The spelling "a b" of a reorder entry parses back to the positions written in it. */
  lemma ParseMoveReadsSpaceForm(a: nat, b: nat)
    requires 1 <= a <= MaxInt && 1 <= b <= MaxInt
    ensures ParseMove(Decimal(a) + " " + Decimal(b)) == Ok((a, b))
  {
    var x, y := Decimal(a), Decimal(b);
    DigitsHaveNoSpace(x);
    DigitsHaveNoSpace(y);
    var s := x + " " + y;
    assert s == x + (" " + y);
    ReplaceArrowsSkips(x, " " + y);
    ReplaceArrowsSkips(" " + y, []);
    assert " " + y + [] == " " + y;
    assert ReplaceArrows(s) == s;
    FieldsOfTwoWords(x, y);
    ParseMoveOfNumerals(s, a, b);
  }

  /** The spelling "a->b" of a reorder entry parses back to the positions written in it. */
  lemma ParseMoveReadsArrowForm(a: nat, b: nat)
    requires 1 <= a <= MaxInt && 1 <= b <= MaxInt
    ensures ParseMove(Decimal(a) + "->" + Decimal(b)) == Ok((a, b))
  {
    var x, y := Decimal(a), Decimal(b);
    DigitsHaveNoSpace(x);
    DigitsHaveNoSpace(y);
    var s := x + "->" + y;
    var arrowed := "->" + y;
    assert s == x + arrowed;
    ReplaceArrowsSkips(x, arrowed);
    assert arrowed[0] == '-' && arrowed[1] == '>' && arrowed[2..] == y;
    assert ReplaceArrows(arrowed) == " " + ReplaceArrows(y);
    ReplaceArrowsSkips(y, []);
    assert y + [] == y;
    assert ReplaceArrows(s) == x + " " + y;
    FieldsOfTwoWords(x, y);
    ParseMoveOfNumerals(s, a, b);
  }

  /** What one entry of the reorder dialog does. */
  datatype ReorderOutcome =
    | Finished                        // blank entry: the dialog closes
    | Rejected(error: ParseError)     // the format message is shown, nothing changes
    | Attempted(step: Step<()>)       // move(a-1, b-1) ran

  /**
   * One entry of the reorder dialog: a blank entry ends the dialog, an
   * unparsable one changes nothing, and "a b" moves the task shown at
   * position a (1-based) to position b.
   */
  function ReorderEntry(st: Store, input: string, writeOk: bool): (r: ReorderOutcome)
    ensures r.Finished? <==> forall i | 0 <= i < |input| :: IsSpace(input[i])
    ensures r.Attempted? <==> ParseMove(TrimSpace(input)).Ok?
    ensures r.Attempted? ==> ShowsMove(st, ParseMove(TrimSpace(input)).value, writeOk, r.step)
    ensures r.Attempted? ==> r.step == MoveAt(st, ParseMove(TrimSpace(input)).value, writeOk)
    ensures r.Rejected? ==> ParseMove(TrimSpace(input)) == Err(r.error)
  {
    var trimmed := TrimSpace(input);
    var parsed := ParseMove(trimmed);
    if trimmed == [] then
      EmptyEntryIsBadFormat();
      Finished
    else if parsed.Err? then
      Rejected(parsed.error)
    else
      MoveShowsMove(st, parsed.value.0, parsed.value.1, writeOk);
      Attempted(MoveAt(st, parsed.value, writeOk))
  }

  /** move(a-1, b-1): the store step for the 1-based positions (a, b). */
  function MoveAt(st: Store, positions: (int, int), writeOk: bool): Step<()> {
    Move(st, positions.0 - 1, positions.1 - 1, writeOk)
  }

  /** An empty entry does not split into two fields. */
  lemma EmptyEntryIsBadFormat()
    ensures ParseMove([]) == Err(BadFormat)
  {
  }

  /** Move on the 0-based positions a-1 and b-1 is the move ShowsMove describes. */
  lemma MoveShowsMove(st: Store, a: int, b: int, writeOk: bool)
    requires a >= 1 && b >= 1
    ensures ShowsMove(st, (a, b), writeOk, Move(st, a - 1, b - 1, writeOk))
  {
  }

  /**
   * The move of 1-based positions (a, b) on `st`: it succeeds exactly when
   * both positions exist and the write (if any) succeeds, and then the task
   * shown at position a is shown at position b.
   */
  predicate ShowsMove(st: Store, positions: (int, int), writeOk: bool, step: Step<()>)
    requires positions.0 >= 1 && positions.1 >= 1
  {
    var (a, b) := positions;
    && (step.result.Ok? <==> a <= |st.tasks| && b <= |st.tasks| && (a == b || writeOk))
    && (step.result.Ok? ==>
          |step.store.tasks| == |st.tasks| && a <= |st.tasks| && b <= |st.tasks|
          && step.store.tasks[b - 1] == st.tasks[a - 1])
  }

  /** Text whose ends are not white space is left alone by TrimSpace. */
  lemma TrimSpaceKeepsInnerText(s: string)
    requires s != [] && !IsSpace(s[0]) && !IsSpace(s[|s| - 1])
    ensures TrimSpace(s) == s
  {
  }

  /**
   * Entering "b a" after "a b" puts every task back where it was, whether
   * or not the writes succeed.
   */
  lemma ReverseEntryRestores(st: Store, a: nat, b: nat, writeOk: bool)
    requires 1 <= a <= |st.tasks| && 1 <= b <= |st.tasks| && a <= MaxInt && b <= MaxInt
    ensures
      var first := ReorderEntry(st, Decimal(a) + " " + Decimal(b), writeOk);
      && first.Attempted?
      && var second := ReorderEntry(first.step.store, Decimal(b) + " " + Decimal(a), writeOk);
      && second.Attempted?
      && second.step.store.tasks == st.tasks
  {
    EntryOfNumerals(st, a, b, writeOk);
    var mid := MoveAt(st, (a, b), writeOk).store;
    EntryOfNumerals(mid, b, a, writeOk);
    MoveAtBackRestores(st, a, b, writeOk);
  }

  /** Moving from b back to a undoes moving from a to b. */
  lemma MoveAtBackRestores(st: Store, a: int, b: int, writeOk: bool)
    requires 1 <= a <= |st.tasks| && 1 <= b <= |st.tasks|
    ensures MoveAt(MoveAt(st, (a, b), writeOk).store, (b, a), writeOk).store.tasks == st.tasks
  {
    var mid := MoveAt(st, (a, b), writeOk).store;
    MoveAtTasks(st, a, b, writeOk);
    MoveAtTasks(mid, b, a, writeOk);
    QueueOrder.MoveUndo(st.tasks, a - 1, b - 1);
  }

  /** The tasks after the move of positions a and b, whether or not the write succeeds. */
  lemma MoveAtTasks(st: Store, a: int, b: int, writeOk: bool)
    requires 1 <= a <= |st.tasks| && 1 <= b <= |st.tasks|
    ensures MoveAt(st, (a, b), writeOk).store.tasks == QueueOrder.MoveItem(st.tasks, a - 1, b - 1)
  {
    if a == b {
      QueueOrder.MoveInPlace(st.tasks, a - 1);
    }
  }

  /** The entry "a b" attempts the move of position a to position b. */
  lemma EntryOfNumerals(st: Store, a: nat, b: nat, writeOk: bool)
    requires 1 <= a <= MaxInt && 1 <= b <= MaxInt
    ensures ReorderEntry(st, Decimal(a) + " " + Decimal(b), writeOk) == Attempted(MoveAt(st, (a, b), writeOk))
  {
    var x, y := Decimal(a), Decimal(b);
    var s := x + " " + y;
    assert TrimSpace(s) == s by {
      assert s[0] == x[0] && IsDigit(x[0]);
      assert s[|s| - 1] == y[|y| - 1] && IsDigit(y[|y| - 1]);
      TrimSpaceKeepsInnerText(s);
    }
    assert ParseMove(s) == Ok((a, b)) by {
      ParseMoveReadsSpaceForm(a, b);
    }
    EntryOfParsedMove(st, s, a, b, writeOk);
  }

  /** An entry that parses as the positions (a, b) attempts exactly move(a-1, b-1). */
  lemma EntryOfParsedMove(st: Store, input: string, a: int, b: int, writeOk: bool)
    requires ParseMove(TrimSpace(input)) == Ok((a, b))
    ensures ReorderEntry(st, input, writeOk) == Attempted(MoveAt(st, (a, b), writeOk))
  {
    var r := ReorderEntry(st, input, writeOk);
    assert r.step == MoveAt(st, (a, b), writeOk);
    assert r == Attempted(r.step);
  }

}
