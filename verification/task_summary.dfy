/**
 * summarizeTask: the one-line form of a task in the queue list. Long texts
 * are cut by byte count, which can split a multi-byte UTF-8 character; the
 * model states UTF-8 well-formedness as RFC 3629 defines it, shows the split,
 * and proves a corrected cut that stops at a character boundary.
 */
module TaskSummary {
  import opened GoText
  import opened Tasks

  /** Texts longer than this many bytes are shortened. */
  const Limit: nat := 60
  /** How many bytes of a long text the code keeps before the ellipsis. */
  const Keep: nat := 57
  /** "…" (U+2026) in UTF-8. */
  const Ellipsis: Bytes := [0xE2, 0x80, 0xA6]

  /** A byte of the form 10xxxxxx, never the first byte of a character. */
  predicate IsContinuation(b: byte) {
    0x80 <= b < 0xC0
  }

  /** The length of the encoded character a byte starts (section 4 of RFC 3629); 0 for bytes that start none. */
  function SequenceWidth(lead: byte): (w: nat)
    ensures w <= 4
    ensures w > 0 ==> !IsContinuation(lead)
  {
    if lead < 0x80 then 1
    else if 0xC2 <= lead < 0xE0 then 2
    else if 0xE0 <= lead < 0xF0 then 3
    else if 0xF0 <= lead < 0xF5 then 4
    else 0
  }

  /**
   * The range of the second byte after a lead byte (section 4 of RFC 3629):
   * narrower after E0, ED, F0 and F4, which rules out overlong forms,
   * surrogates and values past U+10FFFF.
   */
  predicate SecondInRange(lead: byte, b: byte) {
    if lead == 0xE0 then 0xA0 <= b <= 0xBF
    else if lead == 0xED then 0x80 <= b <= 0x9F
    else if lead == 0xF0 then 0x90 <= b <= 0xBF
    else if lead == 0xF4 then 0x80 <= b <= 0x8F
    else IsContinuation(b)
  }

  /** Well-formed UTF-8: a sequence of well-formed encoded characters. */
  predicate Valid(s: Bytes)
    decreases |s|
  {
    if s == [] then true
    else
      var w := SequenceWidth(s[0]);
      && 0 < w <= |s|
      && (w > 1 ==> SecondInRange(s[0], s[1]))
      && (forall j | 1 <= j < w :: IsContinuation(s[j]))
      && Valid(s[w..])
  }

  /** ASCII text is well-formed UTF-8. */
  lemma {:induction false} AsciiIsValid(s: Bytes)
    requires forall i | 0 <= i < |s| :: s[i] < 0x80
    ensures Valid(s)
    decreases |s|
  {
    if s != [] {
      AsciiIsValid(s[1..]);
    }
  }

  /** Cutting well-formed text where a character starts leaves well-formed text. */
  lemma {:induction false} ValidPrefixAtBoundary(s: Bytes, i: nat)
    requires Valid(s) && i <= |s|
    requires i == |s| || !IsContinuation(s[i])
    ensures Valid(s[..i])
    decreases |s|
  {
    if i == 0 {
      assert s[..i] == [];
    } else if i == |s| {
      assert s[..i] == s;
    } else {
      var w := SequenceWidth(s[0]);
      assert i >= w;
      ValidPrefixAtBoundary(s[w..], i - w);
      assert s[..i][w..] == s[w..][..i - w];
    }
  }

  /** After well-formed text, the whole is well-formed exactly when the rest is. */
  lemma {:induction false} ValidConcat(a: Bytes, b: Bytes)
    requires Valid(a)
    ensures Valid(a + b) <==> Valid(b)
    decreases |a|
  {
    if a == [] {
      assert a + b == b;
    } else {
      var ab := a + b;
      var w := SequenceWidth(a[0]);
      assert 0 < w <= |a| && ab[0] == a[0];
      assert forall j | 0 <= j < w :: ab[j] == a[j];
      ValidConcat(a[w..], b);
      assert ab[w..] == a[w..] + b;
    }
  }

  /** Well-formed text never holds four continuation bytes in a row. */
  lemma {:induction false} AtMostThreeContinuations(s: Bytes, j: nat)
    requires Valid(s) && j + 4 <= |s|
    ensures !IsContinuation(s[j]) || !IsContinuation(s[j + 1])
         || !IsContinuation(s[j + 2]) || !IsContinuation(s[j + 3])
    decreases |s|
  {
    var w := SequenceWidth(s[0]);
    if j == 0 {
    } else if j < w {
      assert s[w..][0] == s[w];
    } else {
      AtMostThreeContinuations(s[w..], j - w);
      assert s[w..][j - w] == s[j];
    }
  }

  /** The last position at or before `i` that does not hold a continuation byte (or 0). */
  function RuneStartAtOrBefore(s: Bytes, i: nat): (r: nat)
    requires i < |s|
    ensures r <= i
    ensures r == 0 || !IsContinuation(s[r])
    ensures forall j | r < j <= i :: IsContinuation(s[j])
    decreases i
  {
    if i == 0 || !IsContinuation(s[i]) then i else RuneStartAtOrBefore(s, i - 1)
  }

  /** The code as written: keep the first 57 bytes of a text over 60 bytes and add "…". */
  function ShortenAsWritten(text: Bytes): (r: Bytes)
    ensures |text| <= Limit ==> r == text
    ensures |text| > Limit ==>
      |r| == Keep + |Ellipsis| && r[..Keep] == text[..Keep] && r[Keep..] == Ellipsis
  {
    if |text| > Limit then text[..Keep] + Ellipsis else text
  }

  /**
   * The corrected cut: a text over 60 bytes keeps its bytes up to the last
   * character start at or before byte 57, then "…".
   */
  function Shorten(text: Bytes): (r: Bytes)
    ensures |text| <= Limit ==> r == text
    ensures |text| > Limit ==>
      && |Ellipsis| <= |r| <= Keep + |Ellipsis|
      && r[..|r| - |Ellipsis|] == text[..|r| - |Ellipsis|]
      && r[|r| - |Ellipsis|..] == Ellipsis
  {
    if |text| > Limit then
      var k := RuneStartAtOrBefore(text, Keep);
      var r := text[..k] + Ellipsis;
      assert r[..k] == text[..k] && r[k..] == Ellipsis;
      r
    else text
  }

  /** The corrected cut keeps well-formed text well-formed. */
  lemma ShortenKeepsUtf8(text: Bytes)
    requires Valid(text)
    ensures Valid(Shorten(text))
  {
    if |text| > Limit {
      var k := RuneStartAtOrBefore(text, Keep);
      ValidPrefixAtBoundary(text, k);
      EllipsisIsValid();
      ValidConcat(text[..k], Ellipsis);
      assert Shorten(text) == text[..k] + Ellipsis;
    }
  }

  /** "…" is one well-formed three-byte character. */
  lemma EllipsisIsValid()
    ensures Valid(Ellipsis)
  {
    assert Valid(Ellipsis[3..]);
  }

  /** On well-formed text the corrected cut gives up at most three bytes of the 57. */
  lemma ShortenKeepsMostBytes(text: Bytes)
    requires Valid(text) && |text| > Limit
    ensures |Shorten(text)| >= Keep - 3 + |Ellipsis|
  {
    var k := RuneStartAtOrBefore(text, Keep);
    if k < Keep - 3 {
      AtMostThreeContinuations(text, Keep - 3);
    }
  }

  /** Where byte 57 starts a character (always, for ASCII text), both cuts agree. */
  lemma ShortenAgreesAtBoundary(text: Bytes)
    requires |text| <= Limit || !IsContinuation(text[Keep])
    ensures Shorten(text) == ShortenAsWritten(text)
  {
  }

  /** "а", CYRILLIC SMALL LETTER A (U+0430), two bytes in UTF-8. */
  const CyrillicA: Bytes := [0xD0, 0xB0]

  /** `k` copies of "а". */
  function Letters(k: nat): (r: Bytes)
    ensures |r| == 2 * k
  {
    if k == 0 then [] else CyrillicA + Letters(k - 1)
  }

  /** Copies of "а" in front of a text do not change whether it is well-formed. */
  lemma {:induction false} ValidAfterLetters(k: nat, t: Bytes)
    ensures Valid(Letters(k) + t) <==> Valid(t)
  {
    if k == 0 {
      assert Letters(k) + t == t;
    } else {
      ValidAfterLetters(k - 1, t);
      var u := Letters(k - 1) + t;
      assert Letters(k) + t == CyrillicA + u;
      assert (CyrillicA + u)[2..] == u;
    }
  }

  lemma {:induction false} LettersSplit(a: nat, b: nat)
    ensures Letters(a + b) == Letters(a) + Letters(b)
  {
    if a == 0 {
      assert Letters(a) + Letters(b) == Letters(b);
    } else {
      LettersSplit(a - 1, b);
      assert Letters(a + b) == CyrillicA + Letters((a - 1) + b);
      assert CyrillicA + (Letters(a - 1) + Letters(b)) == (CyrillicA + Letters(a - 1)) + Letters(b);
    }
  }

  /**
   * A counterexample: 31 Cyrillic letters are 62 well-formed bytes; the
   * cut at byte 57 keeps the first byte of the 29th letter and drops its
   * second, so the shortened text is not UTF-8, while the corrected cut
   * keeps 28 whole letters.
   */
  lemma ShortenAsWrittenSplitsCharacter()
    ensures
      var text := Letters(31);
      && Valid(text) && |text| > Limit
      && !Valid(ShortenAsWritten(text))
      && ShortenAsWritten(text) == Letters(28) + [0xD0, 0xE2, 0x80, 0xA6]
      && Shorten(text) == Letters(28) + Ellipsis
  {
    var text := Letters(31);
    ValidAfterLetters(31, []);
    assert Letters(31) + [] == text;
    LettersSplit(28, 3);
    var head := Letters(28);
    assert Letters(3) == [0xD0, 0xB0, 0xD0, 0xB0, 0xD0, 0xB0];
    assert text[..Keep] == head + [0xD0];
    assert ShortenAsWritten(text) == head + [0xD0, 0xE2, 0x80, 0xA6];
    ValidAfterLetters(28, [0xD0, 0xE2, 0x80, 0xA6]);
    assert text[Keep] == 0xB0 && text[Keep - 1] == 0xD0;
    assert RuneStartAtOrBefore(text, Keep) == Keep - 1;
    assert text[..Keep - 1] == head;
  }

  /**
   * The marker added after a task with an attachment: nothing for a task
   * without one, otherwise a space and a bracketed tag.
   */
  function Marker(kind: AttachmentType): (r: Bytes)
    ensures r == [] <==> kind == NoAttachment
    ensures kind == Image ==> r == [B(' '), B('['), B('i'), B('m'), B('g'), B(']')]
    ensures kind == Audio ==> r == [B(' '), B('['), B('a'), B('u'), B('d'), B('i'), B('o'), B(']')]
    ensures r != [] ==> |r| >= 6 && r[0] == B(' ') && r[1] == B('[') && r[|r| - 1] == B(']')
  {
    match kind
    case NoAttachment => []
    case Image => [B(' '), B('['), B('i'), B('m'), B('g'), B(']')]
    case Audio => [B(' '), B('['), B('a'), B('u'), B('d'), B('i'), B('o'), B(']')]
  }

  /**
   * summarizeTask: the creation time as formatted (`when`), a space, the
   * text shortened as the code does, and the attachment marker.
   */
  function Summarize(t: Task, when: Bytes): (r: Bytes)
    ensures HasPrefix(r, when + [B(' ')])
    ensures IsSuffix(Marker(t.attachmentType), r)
    ensures |r| == |when| + 1 + |ShortenAsWritten(t.text)| + |Marker(t.attachmentType)|
    ensures r[|when| + 1..|r| - |Marker(t.attachmentType)|] == ShortenAsWritten(t.text)
    ensures |r| <= |when| + 1 + Limit + |Marker(t.attachmentType)|
  {
    var text := ShortenAsWritten(t.text);
    var r := when + [B(' ')] + text + Marker(t.attachmentType);
    assert r[..|when| + 1] == when + [B(' ')];
    assert r[|when| + 1..|r| - |Marker(t.attachmentType)|] == text;
    r
  }

  /** summarizeTask with the corrected cut. */
  function SummarizeCorrected(t: Task, when: Bytes): (r: Bytes)
    ensures HasPrefix(r, when + [B(' ')])
    ensures IsSuffix(Marker(t.attachmentType), r)
    ensures |r| == |when| + 1 + |Shorten(t.text)| + |Marker(t.attachmentType)|
    ensures r[|when| + 1..|r| - |Marker(t.attachmentType)|] == Shorten(t.text)
    ensures |r| <= |when| + 1 + Limit + |Marker(t.attachmentType)|
  {
    var text := Shorten(t.text);
    var r := when + [B(' ')] + text + Marker(t.attachmentType);
    assert r[..|when| + 1] == when + [B(' ')];
    assert r[|when| + 1..|r| - |Marker(t.attachmentType)|] == text;
    r
  }

  /** Where byte 57 starts a character (always, for ASCII text), both summaries agree. */
  lemma SummariesAgreeAtBoundary(t: Task, when: Bytes)
    requires |t.text| <= Limit || !IsContinuation(t.text[Keep])
    ensures SummarizeCorrected(t, when) == Summarize(t, when)
  {
    ShortenAgreesAtBoundary(t.text);
  }

  /**
   * The code as written on a whole summary: when the cut falls right after
   * the lead byte of a two-byte character, the summary is not UTF-8,
   * whatever its time stamp and attachment.
   */
  lemma SplitSummaryIsNotUtf8(t: Task, when: Bytes)
    requires Valid(when) && |t.text| > Limit
    requires Valid(t.text[..Keep - 1]) && SequenceWidth(t.text[Keep - 1]) == 2
    ensures !Valid(Summarize(t, when))
  {
    var m := Marker(t.attachmentType);
    var lead := when + [B(' ')] + t.text[..Keep - 1];
    var tail := [t.text[Keep - 1]] + Ellipsis + m;
    assert t.text[..Keep] == t.text[..Keep - 1] + [t.text[Keep - 1]];
    assert Summarize(t, when) == lead + tail;
    AsciiIsValid([B(' ')]);
    ValidConcat(when, [B(' ')]);
    ValidConcat(when + [B(' ')], t.text[..Keep - 1]);
    BrokenLeadByte(t.text[Keep - 1], m);
    ValidConcat(lead, tail);
  }

  /** A two-byte lead followed by the ellipsis does not form a character. */
  lemma BrokenLeadByte(x: byte, m: Bytes)
    requires SequenceWidth(x) == 2
    ensures !Valid([x] + Ellipsis + m)
  {
    var u := [x] + Ellipsis + m;
    assert u[0] == x && u[1] == 0xE2;
  }

  /** Thirty-one Cyrillic letters meet the conditions of the lemma above. */
  lemma CyrillicTextSplits()
    ensures |Letters(31)| > Limit
    ensures Valid(Letters(31)[..Keep - 1]) && SequenceWidth(Letters(31)[Keep - 1]) == 2
  {
    LettersSplit(28, 3);
    ValidAfterLetters(28, []);
    assert Letters(28) + [] == Letters(28);
    assert Letters(31)[..Keep - 1] == Letters(28);
    assert Letters(31)[Keep - 1] == Letters(3)[0] == 0xD0;
  }

  /** The corrected summary of well-formed text with a well-formed time stamp is well-formed. */
  lemma SummaryIsUtf8(t: Task, when: Bytes)
    requires Valid(when) && Valid(t.text)
    ensures Valid(SummarizeCorrected(t, when))
  {
    ShortenKeepsUtf8(t.text);
    AsciiIsValid([B(' ')]);
    ValidConcat(when, [B(' ')]);
    ValidConcat(when + [B(' ')], Shorten(t.text));
    var m := Marker(t.attachmentType);
    AsciiIsValid(m);
    ValidConcat(when + [B(' ')] + Shorten(t.text), m);
  }
}
