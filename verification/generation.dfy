/**
 * The deterministic part of flashcard and summary generation (src/lib/openai.ts).
 *
 * The language model's reply arrives as a string; the parser splits it into
 * lines, trims each one and scans them with a single "pending question" slot.
 * A `Q:` line overwrites the slot, an `A:` line emits a card when the slot is
 * non-empty and then clears it, and every other line is ignored. When no card
 * comes out, a fixed two-card fallback built from the source text is returned.
 */
module Generation {
  import opened Wrappers
  import opened Types
  import opened JsStrings

  const QuestionMarker := "Q:"
  const AnswerMarker := "A:"

  const TopicQuestion := "What is the main topic discussed in the text?"
  const KeyPointsQuestion := "What are the key points mentioned?"
  const RetryAnswer := "Please try regenerating the flashcards for a better response."
  const ExcerptLength: nat := 100
  const Ellipsis := "..."

  const SummaryFailedText := "Failed to generate summary"

  /** `summary || "Failed to generate summary"`: an empty reply is replaced, any other is kept. */
  function SummaryOrDefault(reply: string): (summary: string)
    ensures summary != ""
    ensures reply != "" ==> summary == reply
    ensures reply == "" ==> summary == SummaryFailedText
  {
    if reply != "" then reply else SummaryFailedText
  }

  /** How the scan reads one raw line of the reply. */
  datatype LineKind = QuestionLine(question: string) | AnswerLine(answer: string) | OtherLine

  /** The kind of one raw line: the remainder after a `Q:` or `A:` marker, trimmed. */
  function Classify(raw: string): LineKind {
    var line := Trim(raw);
    if QuestionMarker <= line then QuestionLine(Trim(line[2..]))
    else if AnswerMarker <= line then AnswerLine(Trim(line[2..]))
    else OtherLine
  }

  /**
   * A line is a question line when its trimmed text starts with `Q:`, an answer
   * line when it starts with `A:`; the two markers exclude each other, so a
   * `Q:` line is never an answer even if it contains `A:` further on. The text
   * after the marker is trimmed and shorter than the line.
   */
  lemma ClassifyMarkers(raw: string)
    ensures Classify(raw).QuestionLine? <==> QuestionMarker <= Trim(raw)
    ensures Classify(raw).AnswerLine? <==> AnswerMarker <= Trim(raw)
    ensures Classify(raw).QuestionLine? ==> IsTrimmed(Classify(raw).question) && |Classify(raw).question| < |raw|
    ensures Classify(raw).AnswerLine? ==> IsTrimmed(Classify(raw).answer) && |Classify(raw).answer| < |raw|
  {
    var line := Trim(raw);
    TrimSpec(raw);
    if |line| >= 2 {
      TrimSpec(line[2..]);
    }
  }

  /** The classification of each line, in order. */
  function Classified(lines: seq<string>): (kinds: seq<LineKind>)
    ensures |kinds| == |lines|
  {
    if lines == [] then []
    else Classified(lines[..|lines| - 1]) + [Classify(lines[|lines| - 1])]
  }

  /** The kind of line `j` is the classification of line `j`. */
  lemma {:induction false} ClassifiedAt(lines: seq<string>, j: nat)
    requires j < |lines|
    ensures Classified(lines)[j] == Classify(lines[j])
  {
    if j < |lines| - 1 {
      ClassifiedAt(lines[..|lines| - 1], j);
    }
  }

  /** Classifying one more line appends its kind. */
  lemma ClassifiedSnoc(a: seq<string>, line: string)
    ensures Classified(a + [line]) == Classified(a) + [Classify(line)]
  {
    assert (a + [line])[..|a|] == a;
  }

  /** The loop's variables: the pending question (`currentQuestion`) and the cards so far. */
  datatype ScanState = ScanState(pending: string, cards: seq<Flashcard>)

  /** One iteration of the loop over the lines. */
  function Step(st: ScanState, k: LineKind): ScanState {
    match k
    case QuestionLine(q) => ScanState(q, st.cards)
    case AnswerLine(a) =>
      if st.pending != "" then ScanState("", st.cards + [Flashcard(st.pending, a)]) else st
    case OtherLine => st
  }

  /** The state after the loop has consumed lines of these kinds, starting from an empty slot and no cards. */
  function Scan(kinds: seq<LineKind>): ScanState {
    if kinds == [] then ScanState("", [])
    else Step(Scan(kinds[..|kinds| - 1]), kinds[|kinds| - 1])
  }

  /** Reading one more line is one more step. */
  lemma ScanSnoc(a: seq<LineKind>, k: LineKind)
    ensures Scan(a + [k]) == Step(Scan(a), k)
  {
    assert (a + [k])[..|a|] == a;
  }

  /** Classifying two blocks of lines is classifying each block. */
  lemma {:induction false} ClassifiedAppend(a: seq<string>, b: seq<string>)
    ensures Classified(a + b) == Classified(a) + Classified(b)
  {
    if b == [] {
      assert a + b == a;
    } else {
      var b', y := b[..|b| - 1], b[|b| - 1];
      assert a + b == (a + b') + [y];
      ClassifiedAppend(a, b');
      ClassifiedSnoc(a + b', y);
      ClassifiedSnoc(b', y);
      assert b' + [y] == b;
    }
  }

  /** The two cards returned when the scan finds none. */
  function Fallback(text: string): seq<Flashcard> {
    [Flashcard(TopicQuestion, Take(text, ExcerptLength) + Ellipsis), Flashcard(KeyPointsQuestion, RetryAnswer)]
  }

  /**
   * The fallback is two cards: the first asks for the main topic and answers
   * with the first 100 characters of the source text (all of it when shorter)
   * followed by an ellipsis; the second is the fixed request to regenerate.
   */
  lemma FallbackShape(text: string)
    ensures |Fallback(text)| == 2
    ensures Fallback(text)[0].question == TopicQuestion
    ensures Fallback(text)[1] == Flashcard(KeyPointsQuestion, RetryAnswer)
    ensures var a := Fallback(text)[0].answer;
      |a| == Min(ExcerptLength, |text|) + |Ellipsis|
      && a[..|a| - |Ellipsis|] <= text
      && a[|a| - |Ellipsis|..] == Ellipsis
  {
    var excerpt := Take(text, ExcerptLength);
    assert (excerpt + Ellipsis)[..|excerpt|] == excerpt;
    assert (excerpt + Ellipsis)[|excerpt|..] == Ellipsis;
  }

  /** What `generateFlashcards` returns for the model's `response` to a prompt built from `text`. */
  function ParseReply(response: string, text: string): (cards: seq<Flashcard>)
    ensures |cards| > 0
  {
    var scanned := Scan(Classified(Split(response))).cards;
    if |scanned| == 0 then Fallback(text) else scanned
  }

  /** A reply whose scan finds cards is answered with exactly those cards. */
  lemma ParseReplyScanned(response: string, text: string)
    requires Scan(Classified(Split(response))).cards != []
    ensures ParseReply(response, text) == Scan(Classified(Split(response))).cards
  {
  }

  /** The parsing loop of `generateFlashcards`, as written. */
  method GenerateFlashcards(response: string, text: string) returns (flashcards: seq<Flashcard>)
    ensures flashcards == ParseReply(response, text)
    ensures |flashcards| > 0
  {
    flashcards := [];
    var lines := Split(response);
    var currentQuestion := "";
    for i := 0 to |lines|
      invariant Scan(Classified(lines[..i])) == ScanState(currentQuestion, flashcards)
    {
      assert lines[..i + 1] == lines[..i] + [lines[i]];
      ClassifiedSnoc(lines[..i], lines[i]);
      ScanSnoc(Classified(lines[..i]), Classify(lines[i]));
      var line := Trim(lines[i]);
      if QuestionMarker <= line {
        currentQuestion := Trim(line[2..]);
      } else if AnswerMarker <= line && currentQuestion != "" {
        var answer := Trim(line[2..]);
        flashcards := flashcards + [Flashcard(currentQuestion, answer)];
        currentQuestion := "";
      }
    }
    assert lines[..|lines|] == lines;
    if |flashcards| == 0 {
      flashcards := Fallback(text);
    }
  }

  // ---------------------------------------------------------------------------
  // A stateless description of which lines yield cards.

  /** The kind of the last `Q:` or `A:` line, if any. */
  function LastMarker(kinds: seq<LineKind>): (m: Option<LineKind>)
    ensures m.Some? ==> !m.value.OtherLine? && m.value in kinds
  {
    if kinds == [] then None
    else
      var k := kinds[|kinds| - 1];
      if k.OtherLine? then LastMarker(kinds[..|kinds| - 1]) else Some(k)
  }

  /** The question awaiting an answer: that of the last marker line, if it is a `Q:` line. */
  function PendingAfter(kinds: seq<LineKind>): string {
    match LastMarker(kinds)
    case Some(QuestionLine(q)) => q
    case _ => ""
  }

  /** Line `j` yields a card: it is an `A:` line and the nearest marker line before it is a non-empty `Q:` line. */
  predicate Emits(kinds: seq<LineKind>, j: nat)
    requires j < |kinds|
  {
    kinds[j].AnswerLine? && PendingAfter(kinds[..j]) != ""
  }

  /** One card per emitting line, in document order. */
  function Pairing(kinds: seq<LineKind>): seq<Flashcard> {
    if kinds == [] then []
    else
      var j := |kinds| - 1;
      Pairing(kinds[..j])
      + if Emits(kinds, j) then [Flashcard(PendingAfter(kinds[..j]), kinds[j].answer)] else []
  }

  /**
   * The scan agrees with the stateless description: its slot holds the question
   * of the last marker line when that is a `Q:` line (so a later `Q:` line
   * overwrites an earlier one, and an `A:` line always leaves it empty), and its
   * cards are exactly one per emitting line, in order.
   */
  lemma {:induction false} ScanIsPairing(kinds: seq<LineKind>)
    ensures Scan(kinds) == ScanState(PendingAfter(kinds), Pairing(kinds))
  {
    if kinds != [] {
      ScanIsPairing(kinds[..|kinds| - 1]);
    }
  }

  /** Some line of the reply yields a card. */
  predicate SomeLineEmits(kinds: seq<LineKind>) {
    exists j :: 0 <= j < |kinds| && Emits(kinds, j)
  }

  /** No card is produced exactly when no line emits. */
  lemma {:induction false} PairingEmpty(kinds: seq<LineKind>)
    ensures Pairing(kinds) == [] <==> !SomeLineEmits(kinds)
  {
    if kinds != [] {
      var p := kinds[..|kinds| - 1];
      PairingEmpty(p);
      forall j | 0 <= j < |p|
        ensures Emits(kinds, j) == Emits(p, j)
      {
        assert kinds[..j] == p[..j];
      }
      if SomeLineEmits(p) {
        var j :| 0 <= j < |p| && Emits(p, j);
        assert Emits(kinds, j);
      }
    }
  }

  /**
   * `generateFlashcards` returns the paired cards when some line emits, and
   * the fallback exactly when none does.
   */
  lemma ParseReplyCases(response: string, text: string)
    ensures var kinds := Classified(Split(response));
      ParseReply(response, text) == if SomeLineEmits(kinds) then Pairing(kinds) else Fallback(text)
  {
    var kinds := Classified(Split(response));
    ScanIsPairing(kinds);
    PairingEmpty(kinds);
  }

  // ---------------------------------------------------------------------------
  // Properties of the scan.

  /** Number of `A:` lines. */
  function CountAnswerLines(kinds: seq<LineKind>): nat {
    if kinds == [] then 0
    else CountAnswerLines(kinds[..|kinds| - 1]) + if kinds[|kinds| - 1].AnswerLine? then 1 else 0
  }

  /** Number of `Q:` lines whose question is non-empty. */
  function CountQuestionLines(kinds: seq<LineKind>): nat {
    if kinds == [] then 0
    else
      var k := kinds[|kinds| - 1];
      CountQuestionLines(kinds[..|kinds| - 1]) + if k.QuestionLine? && k.question != "" then 1 else 0
  }

  /** Every card of the reply's scan has a non-empty question; questions and answers are trimmed. */
  lemma {:induction false} ScanCardsWellFormed(lines: seq<string>)
    ensures forall c :: c in Scan(Classified(lines)).cards ==>
      c.question != "" && IsTrimmed(c.question) && IsTrimmed(c.answer)
  {
    var kinds := Classified(lines);
    forall k | k in kinds
      ensures k.QuestionLine? ==> IsTrimmed(k.question)
      ensures k.AnswerLine? ==> IsTrimmed(k.answer)
    {
      var j :| 0 <= j < |kinds| && kinds[j] == k;
      ClassifiedAt(lines, j);
      ClassifyMarkers(lines[j]);
    }
    ScanOfTrimmedKinds(kinds);
  }

  predicate TrimmedKind(k: LineKind) {
    match k
    case QuestionLine(q) => IsTrimmed(q)
    case AnswerLine(a) => IsTrimmed(a)
    case OtherLine => true
  }

  lemma {:induction false} ScanOfTrimmedKinds(kinds: seq<LineKind>)
    requires forall k :: k in kinds ==> TrimmedKind(k)
    ensures IsTrimmed(Scan(kinds).pending)
    ensures forall c :: c in Scan(kinds).cards ==> c.question != "" && IsTrimmed(c.question) && IsTrimmed(c.answer)
  {
    if kinds != [] {
      var p, k := kinds[..|kinds| - 1], kinds[|kinds| - 1];
      assert k in kinds;
      ScanOfTrimmedKinds(p);
      assert p + [k] == kinds;
      ScanSnoc(p, k);
    }
  }

  /**
   * Each card consumes one `A:` line and one non-empty `Q:` line, and a
   * pending question holds one more `Q:` line in reserve.
   */
  lemma {:induction false} ScanCountBounds(kinds: seq<LineKind>)
    ensures |Scan(kinds).cards| <= CountAnswerLines(kinds)
    ensures |Scan(kinds).cards| + (if Scan(kinds).pending != "" then 1 else 0) <= CountQuestionLines(kinds)
  {
    if kinds != [] {
      var p, k := kinds[..|kinds| - 1], kinds[|kinds| - 1];
      ScanCountBounds(p);
      assert p + [k] == kinds;
      ScanSnoc(p, k);
      match k
      case QuestionLine(q) =>
      case AnswerLine(a) =>
      case OtherLine =>
    }
  }

  /** Reading more lines only appends cards: the cards of a prefix come first, in the same order. */
  lemma {:induction false} ScanExtends(a: seq<LineKind>, b: seq<LineKind>)
    ensures Scan(a).cards <= Scan(a + b).cards
  {
    if b != [] {
      var b', k := b[..|b| - 1], b[|b| - 1];
      assert a + b == (a + b') + [k];
      ScanSnoc(a + b', k);
      ScanExtends(a, b');
    } else {
      assert a + b == a;
    }
  }

  /** Lines without an `A:` line add no card; in particular a trailing `Q:` line is dropped. */
  lemma {:induction false} NoAnswerNoCard(a: seq<LineKind>, b: seq<LineKind>)
    requires forall k :: 0 <= k < |b| ==> !b[k].AnswerLine?
    ensures Scan(a + b).cards == Scan(a).cards
  {
    if b != [] {
      var b', k := b[..|b| - 1], b[|b| - 1];
      assert a + b == (a + b') + [k];
      ScanSnoc(a + b', k);
      NoAnswerNoCard(a, b');
    } else {
      assert a + b == a;
    }
  }

  /** An `A:` line read while the slot is empty adds nothing and changes nothing. */
  lemma AnswerWithoutQuestionDropped(a: seq<LineKind>, answer: string)
    requires Scan(a).pending == ""
    ensures Scan(a + [AnswerLine(answer)]) == Scan(a)
  {
    ScanSnoc(a, AnswerLine(answer));
  }

  /** Of two consecutive `Q:` lines only the second is pending; the first can no longer be answered. */
  lemma LaterQuestionOverwrites(a: seq<LineKind>, first: string, second: string)
    ensures Scan(a + [QuestionLine(first), QuestionLine(second)]) == ScanState(second, Scan(a).cards)
  {
    assert a + [QuestionLine(first), QuestionLine(second)] == (a + [QuestionLine(first)]) + [QuestionLine(second)];
    ScanSnoc(a, QuestionLine(first));
    ScanSnoc(a + [QuestionLine(first)], QuestionLine(second));
  }

  /**
   * A `Q:` line with an empty question clears the pending question, so the
   * `A:` line after it yields no card and the slot stays empty.
   */
  lemma EmptyQuestionClearsSlot(a: seq<LineKind>, answer: string)
    ensures Scan(a + [QuestionLine(""), AnswerLine(answer)]) == ScanState("", Scan(a).cards)
  {
    assert a + [QuestionLine(""), AnswerLine(answer)] == (a + [QuestionLine("")]) + [AnswerLine(answer)];
    ScanSnoc(a, QuestionLine(""));
    ScanSnoc(a + [QuestionLine("")], AnswerLine(answer));
  }

  /**
   * A line that is neither a `Q:` nor an `A:` line (a blank line, a preamble,
   * a heading) has no effect: the scan is as if it were not there.
   */
  lemma {:induction false} OtherLineIgnored(a: seq<LineKind>, b: seq<LineKind>)
    ensures Scan(a + [OtherLine] + b) == Scan(a + b)
  {
    if b == [] {
      assert a + [OtherLine] + b == a + [OtherLine];
      assert a + b == a;
      ScanSnoc(a, OtherLine);
    } else {
      var b', k := b[..|b| - 1], b[|b| - 1];
      OtherLineIgnored(a, b');
      assert a + [OtherLine] + b == (a + [OtherLine] + b') + [k];
      assert a + b == (a + b') + [k];
      ScanSnoc(a + [OtherLine] + b', k);
      ScanSnoc(a + b', k);
    }
  }

  // ---------------------------------------------------------------------------
  // Replies written in the prompt's `Q:`/`A:` format parse back to their cards.

  /** A card that can be written as a `Q:` line and an `A:` line and read back unchanged. */
  predicate Printable(c: Flashcard) {
    c.question != "" && IsTrimmed(c.question) && IsTrimmed(c.answer)
    && '\n' !in c.question && '\n' !in c.answer
  }

  /** Every card is Printable. */
  predicate AllPrintable(cards: seq<Flashcard>) {
    cards == [] || (AllPrintable(cards[..|cards| - 1]) && Printable(cards[|cards| - 1]))
  }

  /** The lines `Q: <question>` and `A: <answer>` for each card, in order. */
  function RenderLines(cards: seq<Flashcard>): (lines: seq<string>)
    ensures |lines| == 2 * |cards|
  {
    if cards == [] then []
    else
      var c := cards[|cards| - 1];
      RenderLines(cards[..|cards| - 1]) + ["Q: " + c.question, "A: " + c.answer]
  }

  /** The kinds of the rendered lines: a question line and an answer line per card. */
  function RenderKinds(cards: seq<Flashcard>): (kinds: seq<LineKind>) {
    if cards == [] then []
    else
      var c := cards[|cards| - 1];
      RenderKinds(cards[..|cards| - 1]) + [QuestionLine(c.question), AnswerLine(c.answer)]
  }

  /** `Q: ` or `A: ` before a non-empty trimmed text gives a trimmed line. */
  lemma MarkedLineTrimmed(marker: string, x: string)
    requires marker == QuestionMarker || marker == AnswerMarker
    requires x != "" && IsTrimmed(x)
    ensures IsTrimmed(marker + " " + x)
  {
    var line := marker + " " + x;
    assert line[0] == marker[0];
    assert line[|line| - 1] == x[|x| - 1];
  }

  /** The text after the two-character marker of `Q: <x>` or `A: <x>` is ` <x>`. */
  lemma MarkedLineParts(marker: string, x: string)
    requires |marker| == 2
    ensures marker <= marker + " " + x
    ensures (marker + " " + x)[2..] == " " + x
  {
    var line := marker + " " + x;
    assert line[..2] == marker;
  }

  lemma ClassifyQuestionLine(q: string)
    requires IsTrimmed(q)
    ensures Classify("Q: " + q) == QuestionLine(q)
  {
    if q == [] {
      ClassifyBareQuestionLine();
      assert "Q: " + q == "Q: ";
    } else {
      ClassifyFilledQuestionLine(q);
    }
  }

  lemma ClassifyFilledQuestionLine(q: string)
    requires q != "" && IsTrimmed(q)
    ensures Classify("Q: " + q) == QuestionLine(q)
  {
    MarkedLineTrimmed(QuestionMarker, q);
    MarkedLineParts(QuestionMarker, q);
    assert "Q: " + q == QuestionMarker + " " + q;
    TrimSpec("Q: " + q);
    TrimAfterBlank(q);
  }

  lemma ClassifyAnswerLine(a: string)
    requires IsTrimmed(a)
    ensures Classify("A: " + a) == AnswerLine(a)
  {
    if a == [] {
      ClassifyBareAnswerLine();
      assert "A: " + a == "A: ";
    } else {
      ClassifyFilledAnswerLine(a);
    }
  }

  lemma ClassifyFilledAnswerLine(a: string)
    requires a != "" && IsTrimmed(a)
    ensures Classify("A: " + a) == AnswerLine(a)
  {
    MarkedLineTrimmed(AnswerMarker, a);
    MarkedLineParts(AnswerMarker, a);
    assert "A: " + a == AnswerMarker + " " + a;
    TrimSpec("A: " + a);
    TrimAfterBlank(a);
  }

  /** A `Q:` line with nothing after the marker reads as an empty question. */
  lemma ClassifyBareQuestionLine()
    ensures Classify("Q: ") == QuestionLine("")
  {
    var line := "Q: ";
    assert TrimStart(line) == line;
    assert line[..2] == "Q:";
    assert TrimEnd("Q:") == "Q:";
    assert Trim(line) == "Q:";
  }

  lemma ClassifyBareAnswerLine()
    ensures Classify("A: ") == AnswerLine("")
  {
    var line := "A: ";
    assert TrimStart(line) == line;
    assert line[..2] == "A:";
    assert TrimEnd("A:") == "A:";
    assert Trim(line) == "A:";
  }

  lemma ClassifiedPair(x: string, y: string)
    ensures Classified([x, y]) == [Classify(x), Classify(y)]
  {
    ClassifiedSnoc([x], y);
    ClassifiedSnoc([], x);
    assert [x] + [y] == [x, y];
    assert [] + [x] == [x];
  }

  lemma {:induction false} ClassifiedRendered(cards: seq<Flashcard>)
    requires AllPrintable(cards)
    ensures Classified(RenderLines(cards)) == RenderKinds(cards)
  {
    if cards != [] {
      var init := cards[..|cards| - 1];
      var c := cards[|cards| - 1];
      var ql, al := "Q: " + c.question, "A: " + c.answer;
      ClassifiedRendered(init);
      ClassifyQuestionLine(c.question);
      ClassifyAnswerLine(c.answer);
      ClassifiedAppend(RenderLines(init), [ql, al]);
      ClassifiedPair(ql, al);
    }
  }

  lemma {:induction false} RenderedLinesHaveNoNewline(cards: seq<Flashcard>)
    requires AllPrintable(cards)
    ensures forall k :: 0 <= k < |RenderLines(cards)| ==> '\n' !in RenderLines(cards)[k]
  {
    if cards != [] {
      RenderedLinesHaveNoNewline(cards[..|cards| - 1]);
    }
  }

  lemma {:induction false} RenderKindsLength(cards: seq<Flashcard>)
    ensures |RenderKinds(cards)| == 2 * |cards|
  {
    if cards != [] {
      RenderKindsLength(cards[..|cards| - 1]);
    }
  }

  lemma {:induction false} ScanRendered(cards: seq<Flashcard>)
    requires AllPrintable(cards)
    ensures Scan(RenderKinds(cards)) == ScanState("", cards)
  {
    if cards != [] {
      var init := cards[..|cards| - 1];
      var c := cards[|cards| - 1];
      var r := RenderKinds(init);
      var ql, al := QuestionLine(c.question), AnswerLine(c.answer);
      ScanRendered(init);
      assert (r + [ql, al])[..|r| + 1] == r + [ql];
      assert (r + [ql])[..|r|] == r;
      assert init + [c] == cards;
    }
  }

  lemma RenderedSplits(cards: seq<Flashcard>)
    requires |cards| >= 1
    requires AllPrintable(cards)
    ensures Split(Join(RenderLines(cards))) == RenderLines(cards)
  {
    RenderedLinesHaveNoNewline(cards);
    SplitJoin(RenderLines(cards));
  }

  lemma RenderedScans(cards: seq<Flashcard>)
    requires AllPrintable(cards)
    ensures Scan(Classified(RenderLines(cards))).cards == cards
  {
    ClassifiedRendered(cards);
    ScanRendered(cards);
  }

  /**
   * A reply with one `Q:` line directly followed by its `A:` line per card,
   * and no blank lines, parses back to those cards, in order.
   */
  lemma ParseRendered(cards: seq<Flashcard>, text: string)
    requires |cards| >= 1
    requires AllPrintable(cards)
    ensures ParseReply(Join(RenderLines(cards)), text) == cards
  {
    RenderedSplits(cards);
    RenderedScans(cards);
    ParseReplyScanned(Join(RenderLines(cards)), text);
  }

  /**
   * The lines of a reply laid out as in the prompt's example: each card's
   * `Q:` and `A:` lines, with a blank line between one card and the next.
   */
  function SpacedLines(cards: seq<Flashcard>): (lines: seq<string>)
    ensures cards != [] ==> |lines| == 3 * |cards| - 1
  {
    if cards == [] then []
    else
      var c := cards[|cards| - 1];
      var pair := ["Q: " + c.question, "A: " + c.answer];
      if |cards| == 1 then pair else SpacedLines(cards[..|cards| - 1]) + [""] + pair
  }

  /** A blank line is neither a question nor an answer. */
  lemma ClassifyBlankLine()
    ensures Classify("") == OtherLine
  {
    assert Trim("") == "";
  }

  /** A card's question line and answer line, read with an empty slot, push exactly that card. */
  lemma ScanPairAfter(kinds: seq<LineKind>, done: seq<Flashcard>, c: Flashcard)
    requires Scan(kinds) == ScanState("", done)
    requires c.question != ""
    ensures Scan(kinds + [QuestionLine(c.question), AnswerLine(c.answer)]) == ScanState("", done + [c])
  {
    var q := QuestionLine(c.question);
    assert kinds + [q, AnswerLine(c.answer)] == (kinds + [q]) + [AnswerLine(c.answer)];
    ScanSnoc(kinds, q);
    ScanSnoc(kinds + [q], AnswerLine(c.answer));
  }

  /** The kinds of a card's two rendered lines. */
  lemma ClassifiedCard(c: Flashcard)
    requires Printable(c)
    ensures Classified(["Q: " + c.question, "A: " + c.answer]) == [QuestionLine(c.question), AnswerLine(c.answer)]
  {
    ClassifyQuestionLine(c.question);
    ClassifyAnswerLine(c.answer);
    ClassifiedPair("Q: " + c.question, "A: " + c.answer);
  }

  lemma {:induction false} ScanSpaced(cards: seq<Flashcard>)
    requires AllPrintable(cards)
    ensures Scan(Classified(SpacedLines(cards))) == ScanState("", cards)
  {
    if cards != [] {
      var init, c := cards[..|cards| - 1], cards[|cards| - 1];
      var pair := ["Q: " + c.question, "A: " + c.answer];
      var kinds := [QuestionLine(c.question), AnswerLine(c.answer)];
      ClassifiedCard(c);
      assert init + [c] == cards;
      if |cards| == 1 {
        assert [] + kinds == kinds;
        ScanPairAfter([], [], c);
      } else {
        var before := SpacedLines(init);
        var k := Classified(before);
        ScanSpaced(init);
        ClassifiedAppend(before + [""], pair);
        ClassifiedSnoc(before, "");
        ClassifyBlankLine();
        OtherLineIgnored(k, kinds);
        ScanPairAfter(k, init, c);
      }
    }
  }

  lemma {:induction false} SpacedLinesHaveNoNewline(cards: seq<Flashcard>)
    requires AllPrintable(cards)
    ensures forall k :: 0 <= k < |SpacedLines(cards)| ==> '\n' !in SpacedLines(cards)[k]
  {
    if |cards| > 1 {
      SpacedLinesHaveNoNewline(cards[..|cards| - 1]);
    }
  }

  /**
   * A reply in the prompt's layout, one `Q:` line and one `A:` line per card
   * with a blank line between cards, parses back to those cards, in order:
   * the blank lines are ignored.
   */
  lemma ParseSpaced(cards: seq<Flashcard>, text: string)
    requires |cards| >= 1
    requires AllPrintable(cards)
    ensures ParseReply(Join(SpacedLines(cards)), text) == cards
  {
    SpacedLinesHaveNoNewline(cards);
    SplitJoin(SpacedLines(cards));
    ScanSpaced(cards);
    ParseReplyScanned(Join(SpacedLines(cards)), text);
  }

  /** A trailing `Q:` line after well-formed pairs splits off as its own line. */
  lemma TrailingQuestionSplits(cards: seq<Flashcard>, q: string)
    requires AllPrintable(cards)
    requires '\n' !in q
    ensures Split(Join(RenderLines(cards) + ["Q: " + q])) == RenderLines(cards) + ["Q: " + q]
  {
    var ql := "Q: " + q;
    var lines := RenderLines(cards) + [ql];
    RenderedLinesHaveNoNewline(cards);
    assert '\n' !in ql;
    SplitJoin(lines);
  }

  /** A trailing `Q:` line after well-formed pairs is classified as a question line. */
  lemma TrailingQuestionKinds(cards: seq<Flashcard>, q: string)
    requires AllPrintable(cards)
    requires IsTrimmed(q)
    ensures Classified(RenderLines(cards) + ["Q: " + q]) == RenderKinds(cards) + [QuestionLine(q)]
  {
    var ql := "Q: " + q;
    ClassifiedRendered(cards);
    ClassifiedAppend(RenderLines(cards), [ql]);
    ClassifyQuestionLine(q);
    ClassifiedSnoc([], ql);
    assert [] + [ql] == [ql];
  }

  lemma TrailingQuestionScans(cards: seq<Flashcard>, q: string)
    requires AllPrintable(cards)
    requires IsTrimmed(q)
    ensures Scan(Classified(RenderLines(cards) + ["Q: " + q])).cards == cards
  {
    TrailingQuestionKinds(cards, q);
    ScanRendered(cards);
    NoAnswerNoCard(RenderKinds(cards), [QuestionLine(q)]);
  }

  /**
   * A reply of `Q:`/`A:` line pairs followed by a `Q:` line with no answer
   * (a reply cut off mid-card) parses to the complete cards only.
   */
  lemma TrailingQuestionDropped(cards: seq<Flashcard>, q: string, text: string)
    requires |cards| >= 1
    requires AllPrintable(cards)
    requires IsTrimmed(q) && '\n' !in q
    ensures ParseReply(Join(RenderLines(cards) + ["Q: " + q]), text) == cards
  {
    var reply := Join(RenderLines(cards) + ["Q: " + q]);
    TrailingQuestionSplits(cards, q);
    TrailingQuestionScans(cards, q);
    ParseReplyScanned(reply, text);
  }

  const ExampleCard := Flashcard("What is X?", "X is a thing.")
  const ExampleLines := ["Q: What is X?", "A: X is a thing.", "Q: incomplete"]

  lemma ExampleCardPrintable()
    ensures AllPrintable([ExampleCard])
  {
    assert Printable(ExampleCard);
    assert [ExampleCard][..0] == [];
  }

  lemma ExampleRendered()
    ensures RenderLines([ExampleCard]) + ["Q: " + "incomplete"] == ExampleLines
  {
    assert [ExampleCard][..0] == [];
    assert RenderLines([ExampleCard]) == ["Q: " + ExampleCard.question, "A: " + ExampleCard.answer];
    assert "Q: " + ExampleCard.question == "Q: What is X?";
    assert "A: " + ExampleCard.answer == "A: X is a thing.";
    assert "Q: " + "incomplete" == "Q: incomplete";
  }

  lemma ExampleJoined()
    ensures Join(ExampleLines) == "Q: What is X?\nA: X is a thing.\nQ: incomplete"
  {
    var lines := ExampleLines;
    assert lines[1..] == ["A: X is a thing.", "Q: incomplete"];
    assert lines[1..][1..] == ["Q: incomplete"];
    ExampleTailJoined();
    assert Join(lines[1..]) == "A: X is a thing.\nQ: incomplete";
    ExampleHeadJoined();
  }

  lemma ExampleTailJoined()
    ensures "A: X is a thing." + "\n" + "Q: incomplete" == "A: X is a thing.\nQ: incomplete"
  {
  }

  lemma ExampleHeadJoined()
    ensures "Q: What is X?" + "\n" + "A: X is a thing.\nQ: incomplete" == "Q: What is X?\nA: X is a thing.\nQ: incomplete"
  {
  }

  /** A well-formed pair followed by an unanswered question yields exactly the one card. */
  lemma TrailingQuestionExample(text: string)
    ensures ParseReply("Q: What is X?\nA: X is a thing.\nQ: incomplete", text)
         == [Flashcard("What is X?", "X is a thing.")]
  {
    ExampleCardPrintable();
    ExampleRendered();
    ExampleJoined();
    TrailingQuestionDropped([ExampleCard], "incomplete", text);
  }
}
