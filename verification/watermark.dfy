/**
 * The watermark keywords and the span test of `remove_watermark`.
 *
 * `WATERMARK_KEYWORDS` is read from the environment once, at start-up; the
 * PDF is walked block by block, line by line, span by span, and a span of a
 * text block (type 0) whose upper-cased text holds a keyword gets a
 * redaction over its bounding box. Opening and saving the PDF, deleting its
 * images and applying the redactions belong to PyMuPDF and are not modelled.
 */
module Watermark {
  import opened Wrappers
  import opened Strings

  /** A keyword as the parsing leaves it: non-empty, no surrounding whitespace, no lower-case letter. */
  predicate IsKeyword(k: string) {
    k != [] && !IsSpace(k[0]) && !IsSpace(k[|k| - 1]) && HasNoLower(k)
  }

  /** A part of the comma-separated variable that yields keyword `k`. */
  predicate Yields(part: string, k: string) {
    Strip(part) != [] && k == Upper(Strip(part))
  }

  /** Upper-casing a stripped, non-empty part gives a keyword. */
  lemma UpperIsKeyword(s: string)
    requires s != [] && !IsSpace(s[0]) && !IsSpace(s[|s| - 1])
    ensures IsKeyword(Upper(s))
  {
    var u := Upper(s);
    assert u[0] == s[0] || 'A' <= u[0] <= 'Z';
    assert u[|u| - 1] == s[|s| - 1] || 'A' <= u[|u| - 1] <= 'Z';
  }

  /** `k.strip().upper()` for one part, or nothing when the stripped part is empty. */
  function KeywordOf(part: string): (ks: seq<string>)
    ensures |ks| <= 1
    ensures forall k :: k in ks <==> Yields(part, k)
    ensures forall k :: k in ks ==> IsKeyword(k)
  {
    var k := Strip(part);
    if k == [] then []
    else
      UpperIsKeyword(k);
      [Upper(k)]
  }

  /** `[k.strip().upper() for k in parts if k.strip()]`. */
  function NormalizeKeywords(parts: seq<string>): (ks: seq<string>)
    ensures |ks| <= |parts|
    ensures forall k :: k in ks ==> IsKeyword(k)
  {
    if parts == [] then []
    else KeywordOf(parts[0]) + NormalizeKeywords(parts[1..])
  }

  /** A keyword is listed exactly when some part yields it. */
  lemma {:induction false} NormalizeKeywordsIff(parts: seq<string>, k: string)
    ensures k in NormalizeKeywords(parts) <==> exists p :: p in parts && Yields(p, k)
  {
    if parts != [] {
      var rest := parts[1..];
      NormalizeKeywordsIff(rest, k);
      assert k in NormalizeKeywords(parts) <==> k in KeywordOf(parts[0]) || k in NormalizeKeywords(rest);
      if p :| p in parts && Yields(p, k) {
        if p != parts[0] {
          assert p in rest;
        }
      }
      if Yields(parts[0], k) {
        assert parts[0] in parts;
      }
      if p :| p in rest && Yields(p, k) {
        assert p in parts;
      }
    }
  }

  /** Keywords come out in the order of their parts. */
  lemma {:induction false} NormalizeAppend(a: seq<string>, b: seq<string>)
    ensures NormalizeKeywords(a + b) == NormalizeKeywords(a) + NormalizeKeywords(b)
  {
    if a != [] {
      assert (a + b)[0] == a[0];
      assert (a + b)[1..] == a[1..] + b;
      NormalizeAppend(a[1..], b);
      var k, n, m := KeywordOf(a[0]), NormalizeKeywords(a[1..]), NormalizeKeywords(b);
      assert NormalizeKeywords(a + b) == k + (n + m);
      assert NormalizeKeywords(a) == k + n;
      assert k + (n + m) == (k + n) + m;
    } else {
      assert a + b == b;
    }
  }

  /**
   * `WATERMARK_KEYWORDS` from the variable's value (None when it is not set):
   * every keyword is well formed and comes from some comma-separated part.
   */
  function ParseKeywords(env: Option<string>): (ks: seq<string>)
    ensures forall k :: k in ks ==> IsKeyword(k)
  {
    NormalizeKeywords(Split(env.GetOr([]), ','))
  }

  /** A keyword is listed exactly when some comma-separated part of the variable yields it. */
  lemma ParseKeywordsIff(env: Option<string>, k: string)
    ensures k in ParseKeywords(env) <==> exists p :: p in Split(env.GetOr([]), ',') && Yields(p, k)
  {
    NormalizeKeywordsIff(Split(env.GetOr([]), ','), k);
  }

  /** An unset or empty variable gives no keyword. */
  lemma NoVariableNoKeywords(env: Option<string>)
    requires env.GetOr([]) == []
    ensures ParseKeywords(env) == []
  {
    assert Split([], ',') == [[]];
    assert Strip([]) == [];
    assert KeywordOf([]) == [];
  }

  lemma UpperUnchanged(s: string)
    requires HasNoLower(s)
    ensures Upper(s) == s
  {
  }

  /** Writing well-formed keywords back into the variable, comma-separated, parses to the same list. */
  lemma ParseJoinedKeywords(ks: seq<string>)
    requires forall k :: k in ks ==> IsKeyword(k) && ',' !in k
    ensures ParseKeywords(Some(Join(ks, ','))) == ks
  {
    if ks == [] {
      assert Split([], ',') == [[]];
    } else {
      SplitJoin(ks, ',');
      NormalizeIdentity(ks);
    }
  }

  lemma {:induction false} NormalizeIdentity(ks: seq<string>)
    requires forall k :: k in ks ==> IsKeyword(k)
    ensures NormalizeKeywords(ks) == ks
  {
    if ks != [] {
      assert ks[0] in ks;
      StripUnchanged(ks[0]);
      UpperUnchanged(ks[0]);
      assert KeywordOf(ks[0]) == [ks[0]];
      NormalizeIdentity(ks[1..]);
    }
  }

  datatype Rect = Rect(x0: real, y0: real, x1: real, y1: real)

  /** A text span; `bbox` is None when the span has no bounding box. */
  datatype Span = Span(text: string, bbox: Option<Rect>)

  datatype Line = Line(spans: seq<Span>)

  /** A block of the page; `kind` is its "type" entry (0 for text), None when missing. */
  datatype Block = Block(kind: Option<int>, lines: seq<Line>)

  /** `any(k in text.upper() for k in keywords)`; with no keyword it is false. */
  function SpanFlagged(keywords: seq<string>, text: string): (b: bool)
    ensures keywords == [] ==> !b
  {
    keywords != [] && (Contains(Upper(text), keywords[0]) || SpanFlagged(keywords[1..], text))
  }

  /** A span is flagged exactly when some keyword occurs in its upper-cased text. */
  lemma {:induction false} SpanFlaggedIff(keywords: seq<string>, text: string)
    ensures SpanFlagged(keywords, text) <==> exists k :: k in keywords && Contains(Upper(text), k)
  {
    if keywords != [] {
      var rest := keywords[1..];
      SpanFlaggedIff(rest, text);
      if k :| k in keywords && Contains(Upper(text), k) {
        if k != keywords[0] {
          assert k in rest;
        }
      }
      assert keywords[0] in keywords;
      if k :| k in rest && Contains(Upper(text), k) {
        assert k in keywords;
      }
    }
  }

  /** The redaction a span gets: its box, when it is flagged and has one. */
  function SpanMarks(span: Span, keywords: seq<string>): seq<Rect> {
    if SpanFlagged(keywords, span.text) && span.bbox.Some? then [span.bbox.value] else []
  }

  function SpansMarks(spans: seq<Span>, keywords: seq<string>): seq<Rect> {
    if spans == [] then []
    else SpansMarks(spans[..|spans| - 1], keywords) + SpanMarks(spans[|spans| - 1], keywords)
  }

  function LinesMarks(lines: seq<Line>, keywords: seq<string>): seq<Rect> {
    if lines == [] then []
    else LinesMarks(lines[..|lines| - 1], keywords) + SpansMarks(lines[|lines| - 1].spans, keywords)
  }

  function BlockMarks(block: Block, keywords: seq<string>): seq<Rect> {
    if block.kind == Some(0) then LinesMarks(block.lines, keywords) else []
  }

  /** The boxes `remove_watermark` marks on one page, in the order it visits them. */
  function Redactions(blocks: seq<Block>, keywords: seq<string>): seq<Rect> {
    if blocks == [] then []
    else Redactions(blocks[..|blocks| - 1], keywords) + BlockMarks(blocks[|blocks| - 1], keywords)
  }

  /** The span `s` of line `l` of block `b` is redacted over `r`. */
  predicate RedactedAt(b: Block, l: Line, s: Span, keywords: seq<string>, r: Rect) {
    b.kind == Some(0) && l in b.lines && s in l.spans && s.bbox == Some(r) && SpanFlagged(keywords, s.text)
  }

  lemma {:induction false} SpansMarksIff(spans: seq<Span>, keywords: seq<string>, r: Rect)
    ensures r in SpansMarks(spans, keywords) <==> exists s :: s in spans && s.bbox == Some(r) && SpanFlagged(keywords, s.text)
  {
    if spans != [] {
      var init := spans[..|spans| - 1];
      SpansMarksIff(init, keywords, r);
      assert forall s :: s in spans <==> s in init || s == spans[|spans| - 1];
    }
  }

  lemma {:induction false} LinesMarksIff(lines: seq<Line>, keywords: seq<string>, r: Rect)
    ensures r in LinesMarks(lines, keywords) <==>
      exists l, s :: l in lines && s in l.spans && s.bbox == Some(r) && SpanFlagged(keywords, s.text)
  {
    if lines != [] {
      var init, last := lines[..|lines| - 1], lines[|lines| - 1];
      LinesMarksIff(init, keywords, r);
      SpansMarksIff(last.spans, keywords, r);
      assert forall l :: l in lines <==> l in init || l == last;
    }
  }

  /**
   * A box is marked exactly when it is the box of a span of a text block
   * whose upper-cased text holds a keyword.
   */
  lemma {:induction false} RedactionsIff(blocks: seq<Block>, keywords: seq<string>, r: Rect)
    ensures r in Redactions(blocks, keywords) <==>
      exists b, l, s :: b in blocks && RedactedAt(b, l, s, keywords, r)
  {
    if blocks != [] {
      var init, last := blocks[..|blocks| - 1], blocks[|blocks| - 1];
      assert Redactions(blocks, keywords) == Redactions(init, keywords) + BlockMarks(last, keywords);
      RedactionsIff(init, keywords, r);
      LinesMarksIff(last.lines, keywords, r);
      if b, l, s :| b in blocks && RedactedAt(b, l, s, keywords, r) {
        if b == last {
          assert r in BlockMarks(last, keywords);
        } else {
          assert b in init;
        }
      }
      if r in Redactions(init, keywords) {
        var b, l, s :| b in init && RedactedAt(b, l, s, keywords, r);
        assert b in blocks;
      }
      if r in BlockMarks(last, keywords) {
        var l, s :| l in last.lines && s in l.spans && s.bbox == Some(r) && SpanFlagged(keywords, s.text);
        assert last in blocks && RedactedAt(last, l, s, keywords, r);
      }
    }
  }

  lemma {:induction false} NoSpanMarksWithoutKeywords(spans: seq<Span>)
    ensures SpansMarks(spans, []) == []
  {
    if spans != [] {
      NoSpanMarksWithoutKeywords(spans[..|spans| - 1]);
    }
  }

  lemma {:induction false} NoLineMarksWithoutKeywords(lines: seq<Line>)
    ensures LinesMarks(lines, []) == []
  {
    if lines != [] {
      NoLineMarksWithoutKeywords(lines[..|lines| - 1]);
      NoSpanMarksWithoutKeywords(lines[|lines| - 1].spans);
    }
  }

  /** With no keyword, nothing on the page is marked. */
  lemma {:induction false} NoKeywordsNoRedactions(blocks: seq<Block>)
    ensures Redactions(blocks, []) == []
  {
    if blocks != [] {
      NoKeywordsNoRedactions(blocks[..|blocks| - 1]);
      NoLineMarksWithoutKeywords(blocks[|blocks| - 1].lines);
    }
  }

  /**
   * The innermost loop of `remove_watermark`, over the spans of one line:
   * `marks` are the redactions already on the page, and the flagged spans'
   * boxes are added after them in span order.
   */
  method MarkLine(marks: seq<Rect>, spans: seq<Span>, keywords: seq<string>) returns (marks': seq<Rect>)
    ensures marks' == marks + SpansMarks(spans, keywords)
  {
    marks' := marks;
    var k := 0;
    while k < |spans|
      invariant 0 <= k <= |spans|
      invariant marks' == marks + SpansMarks(spans[..k], keywords)
    {
      var span := spans[k];
      assert spans[..k + 1][..k] == spans[..k];
      assert SpansMarks(spans[..k + 1], keywords) == SpansMarks(spans[..k], keywords) + SpanMarks(span, keywords);
      if SpanFlagged(keywords, span.text) && span.bbox.Some? {
        marks' := marks' + [span.bbox.value];
      }
      k := k + 1;
    }
    assert spans[..k] == spans;
  }

  /** The loop over the lines of one block; a block whose type is not 0 is skipped. */
  method MarkBlock(marks: seq<Rect>, block: Block, keywords: seq<string>) returns (marks': seq<Rect>)
    ensures marks' == marks + BlockMarks(block, keywords)
  {
    marks' := marks;
    if block.kind != Some(0) {
      return;
    }
    var j := 0;
    while j < |block.lines|
      invariant 0 <= j <= |block.lines|
      invariant marks' == marks + LinesMarks(block.lines[..j], keywords)
    {
      var lines := block.lines[..j + 1];
      assert lines[..j] == block.lines[..j] && lines[j] == block.lines[j];
      assert LinesMarks(lines, keywords) == LinesMarks(block.lines[..j], keywords) + SpansMarks(block.lines[j].spans, keywords);
      marks' := MarkLine(marks', block.lines[j].spans, keywords);
      j := j + 1;
    }
    assert block.lines[..j] == block.lines;
  }

  /**
   * The walk of `remove_watermark` over one page's blocks: the boxes it
   * passes to `add_redact_annot`, in order.
   */
  method MarkPage(blocks: seq<Block>, keywords: seq<string>) returns (marks: seq<Rect>)
    ensures marks == Redactions(blocks, keywords)
  {
    marks := [];
    var i := 0;
    while i < |blocks|
      invariant 0 <= i <= |blocks|
      invariant marks == Redactions(blocks[..i], keywords)
    {
      assert blocks[..i + 1][..i] == blocks[..i];
      assert Redactions(blocks[..i + 1], keywords) == Redactions(blocks[..i], keywords) + BlockMarks(blocks[i], keywords);
      marks := MarkBlock(marks, blocks[i], keywords);
      i := i + 1;
    }
    assert blocks[..i] == blocks;
  }
}
