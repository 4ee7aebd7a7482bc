/**
 * The driver of the extraction script: `get_text` selects the pages, every
 * page is cut into candidate lines, every line goes to the language model, and
 * the JSON objects in each reply become the records of that line.
 *
 * The language model and `json.loads` are parameters: `ask` maps the
 * preprocessed line to the reply (None where no reply comes back), `decode`
 * maps one object text to its value (None where `json.loads` raises).
 */
module Extract {

  import opened Wrappers
  import opened Regex
  import opened JsonModel
  import opened Segment
  import opened Preprocess

  // ------------------------------------------------------------ get_text

  /** Where a Python slice bound lands in a sequence of length n: negative bounds count from the end, then clamp. */
  function ClampIndex(i: int, n: nat): (r: nat)
    ensures r <= n
    ensures 0 <= i <= n ==> r == i
    ensures n < i ==> r == n
    ensures i < 0 && 0 <= i + n ==> r == i + n
    ensures i + n < 0 ==> r == 0
  {
    if i < 0 then (if i + n < 0 then 0 else i + n)
    else if i > n then n
    else i
  }

  /** `xs[lo:hi]`: never fails, whatever the bounds. */
  function PySlice<T>(xs: seq<T>, lo: int, hi: int): (r: seq<T>)
    ensures |r| <= |xs|
    ensures ClampIndex(lo, |xs|) + |r| <= |xs|
    ensures forall k :: 0 <= k < |r| ==> r[k] == xs[ClampIndex(lo, |xs|) + k]
    ensures |r| == if ClampIndex(lo, |xs|) <= ClampIndex(hi, |xs|) then ClampIndex(hi, |xs|) - ClampIndex(lo, |xs|) else 0
  {
    var a := ClampIndex(lo, |xs|);
    var b := ClampIndex(hi, |xs|);
    if a <= b then xs[a..b] else []
  }

  /** `page['text']` succeeds: the page is a dict with that key. */
  predicate HasText(page: Json) {
    page.JObject? && HasKey(page.fields, "text")
  }

  /** The exception `page['text']` raises on a page without text. */
  function TextFault(page: Json): Fault {
    if page.JObject? then KeyError("text") else TypeError
  }

  /** `[page['text'] for page in pages]`: the first page without text raises. */
  function Texts(pages: seq<Json>): (r: Result<seq<Json>>)
    ensures r.Ok? <==> forall k :: 0 <= k < |pages| ==> HasText(pages[k])
    ensures r.Ok? ==> |r.value| == |pages|
    ensures r.Ok? ==> forall k :: 0 <= k < |pages| ==> Get(pages[k].fields, "text") == Some(r.value[k])
    ensures r.Err? ==> exists k :: (0 <= k < |pages| && !HasText(pages[k])
      && (forall j :: 0 <= j < k ==> HasText(pages[j])) && r.fault == TextFault(pages[k]))
  {
    if pages == [] then Ok([])
    else if !HasText(pages[0]) then Err(TextFault(pages[0]))
    else
      var first := Get(pages[0].fields, "text").value;
      match Texts(pages[1..])
      case Err(f) =>
        assert forall j :: 0 <= j < |pages| - 1 ==> pages[1..][j] == pages[j + 1];
        Err(f)
      case Ok(rest) =>
        assert forall j :: 0 <= j < |pages| - 1 ==> pages[1..][j] == pages[j + 1];
        Ok([first] + rest)
  }

  /**
   * `get_text`: anything but a dict with a list under `content` gives no
   * pages; otherwise the texts of the pages `first_page` to `last_page`
   * (counted from 1). Only IndexError is caught, so a page without text ends
   * the run.
   */
  function GetText(data: Json, firstPage: int, lastPage: int): (r: Result<seq<Json>>)
    ensures !(data.JObject? && HasKey(data.fields, "content")) ==> r == Ok([])
    ensures data.JObject? && HasKey(data.fields, "content") && !Get(data.fields, "content").value.JArray? ==> r == Ok([])
    ensures r.Err? ==> r.fault == TypeError || r.fault == KeyError("text")
  {
    if !data.JObject? || !HasKey(data.fields, "content") then Ok([])
    else match Get(data.fields, "content").value
      case JArray(items) => Texts(PySlice(items, firstPage - 1, lastPage))
      case _ => Ok([])
  }

  /**
   * With 1-based bounds, page k of the result is the text of page
   * `first_page + k`; pages past the end are left out, never an error, and
   * pages outside the window are never read.
   */
  lemma GetTextSelectsPages(data: Json, items: seq<Json>, firstPage: int, lastPage: int)
    requires data.JObject? && Get(data.fields, "content") == Some(JArray(items))
    requires 1 <= firstPage && 0 <= lastPage
    requires forall k :: firstPage - 1 <= k < |items| && k < lastPage ==> HasText(items[k])
    ensures GetText(data, firstPage, lastPage).Ok?
    ensures var r := GetText(data, firstPage, lastPage).value;
      var hi := if lastPage < |items| then lastPage else |items|;
      && |r| == (if firstPage - 1 < hi then hi - (firstPage - 1) else 0)
      && forall k :: 0 <= k < |r| ==> firstPage - 1 + k < |items| && Get(items[firstPage - 1 + k].fields, "text") == Some(r[k])
  {
    var pages := PySlice(items, firstPage - 1, lastPage);
    SliceFrom(items, firstPage - 1, lastPage);
    assert GetText(data, firstPage, lastPage) == Texts(pages);
    var r := Texts(pages).value;
    forall k | 0 <= k < |r|
      ensures firstPage - 1 + k < |items| && Get(items[firstPage - 1 + k].fields, "text") == Some(r[k])
    {
      assert pages[k] == items[firstPage - 1 + k];
    }
  }

  /** With non-negative bounds, `xs[lo:hi]` is the run of `xs` from `lo` up to `hi` or the end. */
  lemma SliceFrom<T>(xs: seq<T>, lo: int, hi: int)
    requires 0 <= lo && 0 <= hi
    ensures var h := if hi < |xs| then hi else |xs|;
      |PySlice(xs, lo, hi)| == if lo < h then h - lo else 0
    ensures forall k :: 0 <= k < |PySlice(xs, lo, hi)| ==> lo + k < |xs| && PySlice(xs, lo, hi)[k] == xs[lo + k]
  {
    assert ClampIndex(lo, |xs|) == if lo < |xs| then lo else |xs|;
  }

  // ------------------------------------------------- process_line, second half

  /** `re.findall(r'\{.*?\}', output, re.DOTALL)`: from each `{` to the next `}`, left to right. */
  function ReplyObjects(reply: string): (objs: seq<string>)
    ensures forall k :: 0 <= k < |objs| ==> var o := objs[k];
      && 2 <= |o| && o[0] == '{' && o[|o| - 1] == '}'
      && forall q :: 0 < q < |o| - 1 ==> o[q] != '}'
  {
    var spans := Spans(BracedText, reply);
    var objs := SpanTexts(reply, spans, 0);
    forall k | 0 <= k < |objs|
      ensures 2 <= |objs[k]| && objs[k][0] == '{' && objs[k][|objs[k]| - 1] == '}'
      ensures forall q :: 0 < q < |objs[k]| - 1 ==> objs[k][q] != '}'
    {
      BracedObject(reply, k);
    }
    objs
  }

  /** Match k of the findall is a braced object of the reply. */
  lemma BracedObject(reply: string, k: nat)
    requires k < |Spans(BracedText, reply)|
    ensures var sp := Spans(BracedText, reply)[k];
      && sp.end <= |reply| && BracedMatch(reply, sp.start, sp.end)
      && SpanTexts(reply, Spans(BracedText, reply), 0)[k] == reply[sp.start..sp.end]
  {
    var spans := Spans(BracedText, reply);
    MatcherAdvances(BracedText, reply);
    SpansFromIsScan(MatcherOf(BracedText), reply, 0);
    ScanMatchAt(MatcherOf(BracedText), reply, 0, spans, k);
    BracedAtExact(reply, spans[k].start, spans[k].end);
    SpanTextsAt(reply, spans, 0, k);
  }

  /** A reply without `{` holds no objects. */
  lemma NoBraceNoObjects(reply: string)
    requires '{' !in reply
    ensures ReplyObjects(reply) == []
  {
    var spans := Spans(BracedText, reply);
    if spans != [] {
      BracedObject(reply, 0);
    }
  }

  /**
   * Decoding the objects in order, up to the first that does not decode:
   * one `try` holds the whole loop, so the first failure drops the rest.
   */
  function DecodedPrefix(objs: seq<string>, decode: string -> Option<Json>): (r: seq<Json>)
    ensures |r| <= |objs|
    ensures forall k :: 0 <= k < |r| ==> decode(objs[k]) == Some(r[k])
    ensures |r| < |objs| ==> decode(objs[|r|]).None?
  {
    if objs == [] then []
    else match decode(objs[0])
      case None => []
      case Some(v) => [v] + DecodedPrefix(objs[1..], decode)
  }

  /** The three facts above pin the decoded prefix down. */
  lemma {:induction false} DecodedPrefixUnique(objs: seq<string>, decode: string -> Option<Json>, p: seq<Json>)
    requires |p| <= |objs|
    requires forall k :: 0 <= k < |p| ==> decode(objs[k]) == Some(p[k])
    requires |p| < |objs| ==> decode(objs[|p|]).None?
    ensures p == DecodedPrefix(objs, decode)
    decreases |objs|
  {
    if objs != [] && p != [] {
      DecodedPrefixUnique(objs[1..], decode, p[1..]);
      assert p == [p[0]] + p[1..];
    }
  }

  /** The records of one line: none for a missing or empty reply, else the decoded prefix of its objects. */
  function ExtractRecords(reply: Option<string>, decode: string -> Option<Json>): (r: seq<Json>)
    ensures reply.None? || reply == Some([]) ==> r == []
    ensures reply.Some? ==> |r| <= |ReplyObjects(reply.value)|
    ensures reply.Some? ==> forall k :: 0 <= k < |r| ==> decode(ReplyObjects(reply.value)[k]) == Some(r[k])
  {
    if reply.None? || reply.value == [] then []
    else DecodedPrefix(ReplyObjects(reply.value), decode)
  }

  /** A record is kept exactly when it and every object before it decode. */
  lemma ExtractRecordsStopsAtFailure(reply: string, decode: string -> Option<Json>, k: nat)
    requires reply != [] && k < |ReplyObjects(reply)|
    ensures k < |ExtractRecords(Some(reply), decode)| <==>
      forall j :: 0 <= j <= k ==> decode(ReplyObjects(reply)[j]).Some?
  {
  }

  /** `process_line` after the model call: the loop appends decoded objects and leaves at the first failure. */
  method ProcessLine(line: string, ask: string -> Option<string>, decode: string -> Option<Json>)
    returns (persons: seq<Json>)
    ensures persons == ExtractRecords(ask(line), decode)
  {
    persons := [];
    var output := ask(line);
    if output.None? || output.value == [] {
      return;
    }
    var objs := ReplyObjects(output.value);
    var i := 0;
    while i < |objs|
      invariant 0 <= i <= |objs| && |persons| == i
      invariant forall k :: 0 <= k < i ==> decode(objs[k]) == Some(persons[k])
    {
      var v := decode(objs[i]);
      if v.None? {
        break;
      }
      persons := persons + [v.value];
      i := i + 1;
    }
    DecodedPrefixUnique(objs, decode, persons);
  }

  // ------------------------------------------------------- the page loop

  /** What the script hands to create_page_json for one page: its number and one record list per line. */
  datatype PageRecords = PageRecords(pageNumber: int, perLine: seq<seq<Json>>)

  /** The records of line `line` of a page, through preprocess_line and process_line. */
  function LineRecords(line: string, ask: string -> Option<string>, decode: string -> Option<Json>): (r: seq<Json>)
    ensures ask(PreprocessLine(line)).None? ==> r == []
    ensures var reply := ask(PreprocessLine(line));
      reply.Some? ==> |r| <= |ReplyObjects(reply.value)|
    ensures var reply := ask(PreprocessLine(line));
      reply.Some? ==> forall k :: 0 <= k < |r| ==> decode(ReplyObjects(reply.value)[k]) == Some(r[k])
  {
    ExtractRecords(ask(PreprocessLine(line)), decode)
  }

  /** `[f(x) for x in xs]`, built by appending. */
  function Map<A, B>(xs: seq<A>, f: A -> B): (r: seq<B>)
    ensures |r| == |xs|
  {
    if xs == [] then [] else Map(xs[..|xs| - 1], f) + [f(xs[|xs| - 1])]
  }

  lemma {:induction false} MapAt<A, B>(xs: seq<A>, f: A -> B, j: nat)
    requires j < |xs|
    ensures Map(xs, f)[j] == f(xs[j])
    decreases |xs|
  {
    if j < |xs| - 1 {
      MapAt(xs[..|xs| - 1], f, j);
    }
  }

  lemma MapStep<A, B>(xs: seq<A>, f: A -> B, j: nat)
    requires j < |xs|
    ensures Map(xs[..j + 1], f) == Map(xs[..j], f) + [f(xs[j])]
  {
    assert xs[..j + 1][..j] == xs[..j];
  }

  /** `[f(base + k, xs[k]) for k, x in enumerate(xs)]`, built by appending. */
  function MapIndexed<A, B>(xs: seq<A>, base: int, f: (int, A) -> B): (r: seq<B>)
    ensures |r| == |xs|
  {
    if xs == [] then [] else MapIndexed(xs[..|xs| - 1], base, f) + [f(base + |xs| - 1, xs[|xs| - 1])]
  }

  lemma {:induction false} MapIndexedAt<A, B>(xs: seq<A>, base: int, f: (int, A) -> B, k: nat)
    requires k < |xs|
    ensures MapIndexed(xs, base, f)[k] == f(base + k, xs[k])
    decreases |xs|
  {
    if k < |xs| - 1 {
      MapIndexedAt(xs[..|xs| - 1], base, f, k);
    }
  }

  lemma MapIndexedStep<A, B>(xs: seq<A>, base: int, f: (int, A) -> B, k: nat)
    requires k < |xs|
    ensures MapIndexed(xs[..k + 1], base, f) == MapIndexed(xs[..k], base, f) + [f(base + k, xs[k])]
  {
    assert xs[..k + 1][..k] == xs[..k];
  }

  /** What each kept line of a page turns into: ProcessPreprocessed computes it. */
  function LineFn(ask: string -> Option<string>, decode: string -> Option<Json>): string -> seq<Json> {
    line => LineRecords(line, ask, decode)
  }

  /**
   * What each page of the selection turns into, given its page number, the
   * function that splits a page into lines (process_page in the script) and
   * the one that turns a line into its records.
   */
  function PageFn(processPage: Json -> seq<string>, lineRecords: string -> seq<Json>): (int, Json) -> PageRecords {
    (pageNumber: int, text: Json) => PageRecords(pageNumber, Map(processPage(text), lineRecords))
  }

  /** Line 490: `process_line(preprocess_line(line))`. */
  method ProcessPreprocessed(line: string, ask: string -> Option<string>, decode: string -> Option<Json>)
    returns (persons: seq<Json>)
    ensures persons == LineFn(ask, decode)(line)
  {
    persons := ProcessLine(PreprocessLine(line), ask, decode);
  }

  /** The inner loop of line 489: the record list of each line is appended as one element, not flattened. */
  method PageLines(lines: seq<string>, lineRecords: string -> seq<Json>) returns (perLine: seq<seq<Json>>)
    ensures perLine == Map(lines, lineRecords)
  {
    perLine := [];
    for j := 0 to |lines|
      invariant perLine == Map(lines[..j], lineRecords)
    {
      MapStep(lines, lineRecords, j);
      var persons := lineRecords(lines[j]);
      perLine := perLine + [persons];
    }
    assert lines[..|lines|] == lines;
  }

  /** One iteration of the loop of lines 485-491. */
  method OnePage(text: Json, pageNumber: int, processPage: Json -> seq<string>, lineRecords: string -> seq<Json>)
    returns (page: PageRecords)
    ensures page == PageFn(processPage, lineRecords)(pageNumber, text)
  {
    var perLine := PageLines(processPage(text), lineRecords);
    page := PageRecords(pageNumber, perLine);
  }

  /**
   * The loop of lines 485-491 over the selected pages, numbered from
   * `firstPage`; the script splits pages with ProcessPage and turns lines
   * into records as ProcessPreprocessed does.
   */
  method ExtractPages(texts: seq<Json>, firstPage: int, processPage: Json -> seq<string>, lineRecords: string -> seq<Json>)
    returns (pages: seq<PageRecords>)
    ensures pages == MapIndexed(texts, firstPage, PageFn(processPage, lineRecords))
  {
    pages := [];
    for k := 0 to |texts|
      invariant pages == MapIndexed(texts[..k], firstPage, PageFn(processPage, lineRecords))
    {
      MapIndexedStep(texts, firstPage, PageFn(processPage, lineRecords), k);
      var page := OnePage(texts[k], firstPage + k, processPage, lineRecords);
      pages := pages + [page];
    }
    assert texts[..|texts|] == texts;
  }

  /**
   * Page k of the result is numbered `first_page + k` and holds one record
   * list per kept line of text k, in line order.
   */
  lemma ExtractedPage(texts: seq<Json>, firstPage: int, ask: string -> Option<string>, decode: string -> Option<Json>, k: nat)
    requires k < |texts|
    ensures var page := MapIndexed(texts, firstPage, PageFn(ProcessPage, LineFn(ask, decode)))[k];
      && page.pageNumber == firstPage + k
      && |page.perLine| == |ProcessPage(texts[k])|
      && forall j :: 0 <= j < |page.perLine| ==> page.perLine[j] == LineRecords(ProcessPage(texts[k])[j], ask, decode)
  {
    MapIndexedAt(texts, firstPage, PageFn(ProcessPage, LineFn(ask, decode)), k);
    var lines := ProcessPage(texts[k]);
    forall j | 0 <= j < |lines|
      ensures Map(lines, LineFn(ask, decode))[j] == LineRecords(lines[j], ask, decode)
    {
      MapAt(lines, LineFn(ask, decode), j);
    }
  }

  /**
   * Lines 483-491: nothing happens when the loaded data is falsy (load_json
   * gives None on every failure); a page without text stops the script.
   */
  method RunExtraction(data: Json, firstPage: int, lastPage: int, ask: string -> Option<string>, decode: string -> Option<Json>)
    returns (r: Result<seq<PageRecords>>)
    ensures !Truthy(data) ==> r == Ok([])
    ensures Truthy(data) ==> (r.Err? <==> GetText(data, firstPage, lastPage).Err?)
    ensures Truthy(data) && r.Ok? ==> r.value == MapIndexed(GetText(data, firstPage, lastPage).value, firstPage, PageFn(ProcessPage, LineFn(ask, decode)))
  {
    if !Truthy(data) {
      return Ok([]);
    }
    match GetText(data, firstPage, lastPage)
    case Err(f) =>
      return Err(f);
    case Ok(texts) =>
      var pages := ExtractPages(texts, firstPage, ProcessPage, LineFn(ask, decode));
      return Ok(pages);
  }
}
