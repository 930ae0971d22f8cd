/** When the HTML scanner reports a needle exactly: for all ASCII bodies and reads, precisely when the needle is
    scannable; and what cutting a character in two can do. */
module HtmlExactness {
  import opened Bytes
  import opened Unicode
  import opened RawSearch
  import opened Evaluator
  import opened Matcher
  import opened ChunkedScan
  import opened ChunkedRuns
  import opened HtmlText
  import opened HtmlScan
  import opened HtmlNeedles

  /** Where the scanner reports matches of a category. */
  function ReportedAt(m: PreparedMatchers, category: string, lossy: seq<Byte> -> seq<Scalar>, content: seq<Byte>,
                      sizes: seq<nat>): seq<nat>
  {
    Starts(OfCategory(ScanMatches(m, lossy, content, 0, sizes), category))
  }

  /** The needle is reported wherever it occurs, in order and once each, in every ASCII body however it is
      read. */
  ghost predicate ReportsAll(m: PreparedMatchers, k: nat, lossy: seq<Byte> -> seq<Scalar>)
    requires IsSingle(m, k)
  {
    forall content: seq<Byte>, sizes: seq<nat> :: Ascii(content) && ValidReads(content, 0, sizes) ==>
      ReportedAt(m, m.raws[k].metadata.category, lossy, content, sizes) == Occurrences(content, Utf8(m.raws[k].raw))
  }

  /** The needle is reported where one search of the whole body finds it. */
  ghost predicate ReportsAsOne(m: PreparedMatchers, k: nat, lossy: seq<Byte> -> seq<Scalar>)
    requires IsSingle(m, k) && Utf8(m.raws[k].raw) != []
  {
    forall content: seq<Byte>, sizes: seq<nat> :: Ascii(content) && ValidReads(content, 0, sizes) ==>
      ReportedAt(m, m.raws[k].metadata.category, lossy, content, sizes) == Greedy(content, Utf8(m.raws[k].raw), 0)
  }

  /** For windows decoded intact, the reports are those of the windows' bytes. */
  lemma {:induction false} ReportedAtIs(m: PreparedMatchers, k: nat, lossy: seq<Byte> -> seq<Scalar>,
                                        content: seq<Byte>, sizes: seq<nat>)
    requires IsSingle(m, k) && ValidReads(content, 0, sizes) && Intact(lossy, content, 0, sizes)
    ensures Utf8(m.raws[k].raw) != []
    ensures ReportedAt(m, m.raws[k].metadata.category, lossy, content, sizes)
         == ScanStarts(content, Utf8(m.raws[k].raw), 0, sizes)
  {
    ScanContributes(m, k, lossy, content, 0, sizes);
    NeedleStarts(m.raws[k].metadata, m.raws[k].raw, lossy, content, 0, sizes);
  }

  lemma AsciiReportedAt(m: PreparedMatchers, k: nat, lossy: seq<Byte> -> seq<Scalar>)
    requires IsSingle(m, k) && KeepsUtf8(lossy)
    ensures Utf8(m.raws[k].raw) != []
    ensures forall content: seq<Byte>, sizes: seq<nat> :: Ascii(content) && ValidReads(content, 0, sizes) ==>
      ReportedAt(m, m.raws[k].metadata.category, lossy, content, sizes)
      == ScanStarts(content, Utf8(m.raws[k].raw), 0, sizes)
  {
    FirstByte(m.raws[k].raw);
    forall content: seq<Byte>, sizes: seq<nat> | Ascii(content) && ValidReads(content, 0, sizes)
      ensures ReportedAt(m, m.raws[k].metadata.category, lossy, content, sizes)
           == ScanStarts(content, Utf8(m.raws[k].raw), 0, sizes)
    {
      AsciiIsIntact(lossy, content, 0, sizes);
      ReportedAtIs(m, k, lossy, content, sizes);
    }
  }

  /** Among any other matchers, a needle is reported exactly in all ASCII bodies, however they are read, if and
      only if it is scannable (or can be in no ASCII body). */
  lemma ReportsAllIff(m: PreparedMatchers, k: nat, lossy: seq<Byte> -> seq<Scalar>)
    requires IsSingle(m, k) && KeepsUtf8(lossy)
    ensures var needle := Utf8(m.raws[k].raw);
      ReportsAll(m, k, lossy) <==> Scannable(needle) || !Ascii(needle)
  {
    AsciiReportedAt(m, k, lossy);
    ScanIsExactIff(Utf8(m.raws[k].raw));
    assert ReportsAll(m, k, lossy) <==> ScansExactly(Utf8(m.raws[k].raw));
  }

  /** And the same condition decides whether cutting the body into windows changes what is reported. */
  lemma ReportsAsOneIff(m: PreparedMatchers, k: nat, lossy: seq<Byte> -> seq<Scalar>)
    requires IsSingle(m, k) && KeepsUtf8(lossy)
    ensures Utf8(m.raws[k].raw) != []
    ensures var needle := Utf8(m.raws[k].raw);
      ReportsAsOne(m, k, lossy) <==> Scannable(needle) || !Ascii(needle)
  {
    AsciiReportedAt(m, k, lossy);
    ScanIsAsOneIff(Utf8(m.raws[k].raw));
    assert ReportsAsOne(m, k, lossy) <==> ScansAsOne(Utf8(m.raws[k].raw));
  }

  // ----- A window that is cut inside a character

  const LETTER_B: Byte := 0x62

  /** 510 times the letter x, and then b and z. */
  const TAIL: seq<Byte> := seq(512, i => if i == 510 then LETTER_B else if i == 511 then 0x7A else 0x78)

  /** The same after an e with an acute accent, which has two bytes. */
  const ACCENTED: seq<Byte> := [0xC3, 0xA9] + TAIL

  lemma {:induction false} CharThenAscii(c: Scalar, tail: seq<Byte>)
    requires Ascii(tail)
    ensures Utf8([c] + AsciiText(tail)) == Utf8Char(c) + tail
  {
    AsciiIsUtf8(tail);
    assert ([c] + AsciiText(tail))[1..] == AsciiText(tail);
  }

  predicate IsOnlyAt(s: seq<Byte>, b: Byte, p: nat) {
    p < |s| && s[p] == b && forall i :: 0 <= i < |s| && i != p ==> s[i] != b
  }

  /** One occurrence of a letter. */
  lemma {:induction false} FoundOnce(s: seq<Byte>, b: Byte, p: nat)
    requires IsOnlyAt(s, b, p)
    ensures Greedy(s, [b], 0) == [p]
  {
    forall i: nat | i != p ensures !Occurs(s, [b], i) {
      if i < |s| {
        assert [b][0] == b != s[i + 0];
      }
    }
    GreedySkips(s, [b], 0, p);
    assert Occurs(s, [b], p);
    GreedyAt(s, [b], p);
    GreedySkips(s, [b], p + 1, |s|);
  }

  lemma {:induction false} OneIsLate(p: nat, index: nat, n: nat, total: nat)
    requires index + p + n > total
    ensures Late([p], index, n, total) == [index + p]
  {
    assert [p][1..] == [];
  }

  /** The window shows one occurrence, which is no duplicate. */
  lemma {:induction false} ReadOf(metadata: Metadata, raw: seq<Scalar>, lossy: seq<Byte> -> seq<Scalar>,
                                  content: seq<Byte>, total: nat, n: nat, bytes: seq<Byte>, p: nat)
    requires raw != [] && metadata.correlation == None && total + n <= |content|
    requires bytes == Utf8(lossy(Window(content, total, n)))
    requires Utf8(raw) != [] && Greedy(bytes, Utf8(raw), 0) == [p]
    requires total - Overlap(total) + p + |Utf8(raw)| > total
    ensures Starts(WindowMatches(OneNeedle(metadata, raw), lossy, content, total, n)) == [total - Overlap(total) + p]
  {
    WindowStarts(metadata, raw, lossy, content, total, n, Window(content, total, n), bytes);
    OneIsLate(p, total - Overlap(total), |Utf8(raw)|, total);
  }

  lemma LetterIs()
    ensures Utf8([LETTER_B]) == [LETTER_B]
  {
  }

  lemma {:induction false} ReadsText(lossy: seq<Byte> -> seq<Scalar>, window: seq<Byte>, text: seq<Scalar>)
    requires KeepsUtf8(lossy) && window == Utf8(text)
    ensures Utf8(lossy(window)) == window
  {
    assert lossy(Utf8(text)) == text;
  }

  lemma FirstRead(metadata: Metadata, lossy: seq<Byte> -> seq<Scalar>, content: seq<Byte>)
    requires metadata.correlation == None && KeepsUtf8(lossy) && |content| == 514
    requires Window(content, 0, 513) == [0xC3, 0xA9] + TAIL[..511]
    ensures Starts(WindowMatches(OneNeedle(metadata, [LETTER_B]), lossy, content, 0, 513)) == [512]
  {
    var window := Window(content, 0, 513);
    CharThenAscii(0xE9, TAIL[..511]);
    ReadsText(lossy, window, [0xE9] + AsciiText(TAIL[..511]));
    FoundOnce(window, LETTER_B, 512);
    LetterIs();
    ReadOf(metadata, [LETTER_B], lossy, content, 0, 513, window, 512);
  }

  lemma SecondRead(metadata: Metadata, lossy: seq<Byte> -> seq<Scalar>, content: seq<Byte>)
    requires metadata.correlation == None && |content| == 514
    requires lossy(Window(content, 513, 1)) == [REPLACEMENT] + AsciiText(TAIL)
    ensures Starts(WindowMatches(OneNeedle(metadata, [LETTER_B]), lossy, content, 513, 1)) == [514]
  {
    var text, bytes := [REPLACEMENT] + AsciiText(TAIL), [0xEF, 0xBF, 0xBD] + TAIL;
    CharThenAscii(REPLACEMENT, TAIL);
    FoundOnce(bytes, LETTER_B, 513);
    LetterIs();
    ReadOf(metadata, [LETTER_B], lossy, content, 513, 1, bytes, 513);
  }

  lemma {:induction false} WindowsOf(content: seq<Byte>)
    requires content == ACCENTED
    ensures |content| == 514 && ValidReads(content, 0, [513, 1]) && !AtCharacters(content, 0, [513, 1])
    ensures Window(content, 0, 513) == [0xC3, 0xA9] + TAIL[..511] && Window(content, 513, 1) == content[1..]
  {
    var sizes: seq<nat> := [513, 1];
    assert sizes[1..] == [1] && [1 as nat][1..] == [];
    assert ValidReads(content, 514, []) && ValidReads(content, 513, [1]);
    assert content[1] == 0xA9;
    assert !AtCharacters(content, 513, [1]);
  }

  /** What two reads report. */
  lemma {:induction false} TwoReads(m: PreparedMatchers, lossy: seq<Byte> -> seq<Scalar>, content: seq<Byte>, a: nat,
                                    b: nat)
    ensures Starts(ScanMatches(m, lossy, content, 0, [a, b]))
         == Starts(WindowMatches(m, lossy, content, 0, a)) + Starts(WindowMatches(m, lossy, content, a, b))
  {
    var first, second := WindowMatches(m, lossy, content, 0, a), WindowMatches(m, lossy, content, a, b);
    assert [a, b][1..] == [b] && [b][1..] == [];
    assert ScanMatches(m, lossy, content, a + b, []) == [];
    Assoc(second, [], []);
    assert ScanMatches(m, lossy, content, a, [b]) == second;
    StartsAppend(first, second);
  }

  lemma OneB(content: seq<Byte>)
    requires content == ACCENTED
    ensures IsUtf8(content) && Occurrences(content, [LETTER_B]) == [512]
  {
    CharThenAscii(0xE9, TAIL);
    FoundOnce(content, LETTER_B, 512);
    WholeIsExact(content, [LETTER_B]);
  }

  /** A valid body of 514 bytes that holds the letter b once. The second window starts inside the accented
      letter; if the half letter is decoded to one replacement character, the b is reported again, at a
      position outside the body. */
  lemma {:induction false} CutCharacterMisplaces(metadata: Metadata, lossy: seq<Byte> -> seq<Scalar>,
                                                 content: seq<Byte>)
    requires metadata.correlation == None && KeepsUtf8(lossy) && content == ACCENTED
    requires lossy(content[1..]) == [REPLACEMENT] + AsciiText(TAIL)
    ensures IsUtf8(content) && |content| == 514 && Occurrences(content, [LETTER_B]) == [512]
    ensures ValidReads(content, 0, [513, 1]) && !AtCharacters(content, 0, [513, 1])
    ensures Starts(ScanMatches(OneNeedle(metadata, [LETTER_B]), lossy, content, 0, [513, 1])) == [512, 514]
  {
    WindowsOf(content);
    OneB(content);
    FirstRead(metadata, lossy, content);
    SecondRead(metadata, lossy, content);
    TwoReads(OneNeedle(metadata, [LETTER_B]), lossy, content, 513, 1);
  }
}
