/**
 * combine_jsons.py: every year directory of `register/` becomes one object
 * holding the year and that directory's page files, each without its `year`
 * key and sorted by `page`. The directory listing is an input value; an entry
 * is a directory with its own listing, or a file with what `json.load` makes
 * of it (None when it cannot be read or parsed).
 */
module Combine {

  import opened Wrappers
  import opened Chars
  import opened JsonModel
  import opened Sorting

  datatype Entry =
    | Dir(name: string, entries: seq<Entry>)
    | File(name: string, content: Option<Json>)

  /** One combined file: where it is written and what is written. */
  datatype Output = Output(path: string, content: Json)

  /** The macOS metadata file that the loop skips. */
  const Junk := ".DS_Store"

  // ---------------------------------------------------------------- listing

  function NameKeys(entries: seq<Entry>): (keys: seq<Key>)
    ensures |keys| == |entries| && forall k :: 0 <= k < |entries| ==> keys[k] == StrKey(entries[k].name)
  {
    seq(|entries|, k requires 0 <= k < |entries| => StrKey(entries[k].name))
  }

  /** `sorted(os.listdir(d))`: the entries in ascending order of their names. */
  function ByName(entries: seq<Entry>): (r: seq<Entry>)
    ensures multiset(r) == multiset(entries)
  {
    var keys := NameKeys(entries);
    SortValues(Number(keys, entries));
    NumberedValues(keys, entries);
    Values(SortItems(Number(keys, entries)))
  }

  /** The sorted listing has its names in ascending order. */
  lemma ByNameAscending(entries: seq<Entry>)
    ensures var r := ByName(entries);
      forall i, j :: 0 <= i < j < |r| ==> !StrLt(r[j].name, r[i].name)
  {
    var keys := NameKeys(entries);
    var xs := Number(keys, entries);
    var r := SortItems(xs);
    SortItemsCorrect(xs);
    SortedMeans(r);
    NumberedMembers(keys, entries, r);
    forall i, j | 0 <= i < j < |r| ensures !StrLt(r[j].value.name, r[i].value.name) {
      assert r[i] in r && r[j] in r;
    }
  }

  /** The values of the numbered list are the list itself. */
  lemma NumberedValues<T>(keys: seq<Key>, values: seq<T>)
    requires |keys| == |values|
    ensures Values(Number(keys, values)) == values
  {
  }

  // ------------------------------------------------------- splitext, output

  /**
   * `os.path.splitext(name)[0]` for a name without a path separator: the name
   * up to its last `.`, unless every character before that `.` is a `.` too.
   */
  function SplitExtRoot(name: string): (root: string)
    ensures root <= name
    ensures root != name <==> exists d, k :: 0 <= k < d < |name| && name[d] == '.' && name[k] != '.'
    ensures root != name ==> name[|root|] == '.' && '.' !in name[|root| + 1..]
  {
    match LastIndex(name, '.')
    case None => name
    case Some(d) =>
      if exists k :: 0 <= k < d && name[k] != '.' then name[..d] else name
  }

  lemma SplitExtExample(name: string)
    requires name == "1901.v2"
    ensures SplitExtRoot(name) == "1901"
  {
    assert name[4] == '.' && name[0] != '.';
    assert name[..4] == "1901";
  }

  function OutputPath(root: string): string {
    "combined_registers/" + root + "_combined.json"
  }

  // ---------------------------------------------------------------- loading

  /**
   * `json.load` on one listed file, then `data.pop("year", None)`: a
   * directory or an unreadable file raises, a list rejects `pop`'s two
   * arguments and any other non-dict value has no `pop`.
   */
  function LoadPage(file: Entry): (r: Result<Json>)
    ensures r.Ok? <==> file.File? && file.content.Some? && file.content.value.JObject?
    ensures (file.Dir? || file.content.None?) ==> r == Err(DecodeError(file.name))
    ensures file.File? && file.content.Some? && file.content.value.JArray? ==> r == Err(TypeError)
    ensures r.Ok? ==> var fields := file.content.value.fields;
      && r.value.JObject?
      && !HasKey(r.value.fields, "year")
      && forall key :: key != "year" ==> Get(r.value.fields, key) == Get(fields, key)
  {
    match file
    case Dir(name, _) => Err(DecodeError(name))
    case File(name, None) => Err(DecodeError(name))
    case File(_, Some(data)) =>
      match data
      case JObject(fields) => Ok(JObject(Pop(fields, "year")))
      case JArray(_) => Err(TypeError)
      case _ => Err(AttributeError("pop"))
  }

  /** The pages loaded from the files in listing order, or the first failure. */
  function LoadPages(files: seq<Entry>): (r: Result<seq<Json>>)
    ensures r.Ok? ==> |r.value| <= |files|
    ensures r.Ok? ==> forall p :: p in r.value ==> p.JObject? && !HasKey(p.fields, "year")
  {
    if files == [] then Ok([])
    else
      match LoadPages(files[..|files| - 1])
      case Err(f) => Err(f)
      case Ok(pages) =>
        var file := files[|files| - 1];
        if file.name == Junk then Ok(pages)
        else
          match LoadPage(file)
          case Err(f) => Err(f)
          case Ok(p) => Ok(pages + [p])
  }

  /** The files the loop reads: all but `.DS_Store`, in order. */
  function Kept(files: seq<Entry>): (r: seq<Entry>)
    ensures forall f :: f in r <==> f in files && f.name != Junk
  {
    if files == [] then []
    else
      var init := Kept(files[..|files| - 1]);
      assert files == files[..|files| - 1] + [files[|files| - 1]];
      if files[|files| - 1].name == Junk then init else init + [files[|files| - 1]]
  }

  /**
   * `.DS_Store` contributes nothing and every other file exactly one page:
   * loading succeeds iff every other file loads, and then page k is what
   * file k of them loads to.
   */
  lemma {:induction false} LoadedPages(files: seq<Entry>)
    ensures LoadPages(files).Ok? <==> forall f :: f in Kept(files) ==> LoadPage(f).Ok?
    ensures LoadPages(files).Ok? ==> var pages := LoadPages(files).value;
      && |pages| == |Kept(files)|
      && forall k :: 0 <= k < |pages| ==> Ok(pages[k]) == LoadPage(Kept(files)[k])
  {
    if files != [] {
      var init := files[..|files| - 1];
      LoadedPages(init);
    }
  }

  /** A failure stays a failure whatever files follow. */
  lemma {:induction false} LoadFailureStays(files: seq<Entry>, n: nat)
    requires n <= |files| && LoadPages(files[..n]).Err?
    ensures LoadPages(files) == LoadPages(files[..n])
    decreases |files| - n
  {
    if n < |files| {
      assert files[..n + 1][..n] == files[..n];
      LoadFailureStays(files, n + 1);
    } else {
      assert files[..n] == files;
    }
  }

  lemma LoadStep(files: seq<Entry>, k: nat, pages: seq<Json>)
    requires k < |files| && LoadPages(files[..k]) == Ok(pages)
    ensures LoadPages(files[..k + 1]) ==
      if files[k].name == Junk then Ok(pages)
      else match LoadPage(files[k]) case Err(f) => Err(f) case Ok(p) => Ok(pages + [p])
  {
    assert files[..k + 1][..k] == files[..k];
  }

  /**
   * The loop of lines 14-20: skip `.DS_Store`, load and strip every other
   * file, append it; the first file that raises ends the run.
   */
  method LoadYear(files: seq<Entry>) returns (r: Result<seq<Json>>)
    ensures r == LoadPages(files)
  {
    var pages: seq<Json> := [];
    for k := 0 to |files|
      invariant LoadPages(files[..k]) == Ok(pages)
    {
      LoadStep(files, k, pages);
      var file := files[k];
      if file.name != Junk {
        var page := LoadPage(file);
        if page.Err? {
          LoadFailureStays(files, k + 1);
          return Err(page.fault);
        }
        pages := pages + [page.value];
      }
    }
    assert files[..|files|] == files;
    return Ok(pages);
  }

  // ---------------------------------------------------------------- sorting

  /** `x['page']` for every page, computed before any comparison; the first missing key raises. */
  function PageFields(pages: seq<Json>): (r: Result<seq<Json>>)
    ensures r.Ok? <==> forall k :: 0 <= k < |pages| ==> pages[k].JObject? && HasKey(pages[k].fields, "page")
    ensures r.Ok? ==> |r.value| == |pages| && forall k :: 0 <= k < |pages| ==> Some(r.value[k]) == Get(pages[k].fields, "page")
    ensures r.Err? ==> r.fault == TypeError || r.fault == KeyError("page")
  {
    if pages == [] then Ok([])
    else
      var head :=
        if !pages[0].JObject? then Err(TypeError)
        else match Get(pages[0].fields, "page") case None => Err(KeyError("page")) case Some(v) => Ok(v);
      match head
      case Err(f) => Err(f)
      case Ok(v) =>
        match PageFields(pages[1..])
        case Err(f) => Err(f)
        case Ok(rest) => Ok([v] + rest)
  }

  predicate IntLike(v: Json) { v.JInt? || v.JBool? }

  /** The key Python compares for a `page` value: a bool is the integer 0 or 1. */
  function KeyOf(v: Json): Key {
    match v
    case JInt(n) => IntKey(n)
    case JBool(b) => IntKey(if b then 1 else 0)
    case JString(s) => StrKey(s)
    case _ => IntKey(0)
  }

  /**
   * Whether `sorted` can compare the keys: integers (and bools) with each
   * other, strings with each other. Lists compare element by element, which
   * the model does not follow; any other mix, and None or a dict even alone
   * with its own kind, raise TypeError.
   */
  function OrderKeys(raw: seq<Json>): (r: Result<seq<Key>>)
    ensures r.Ok? <==> (forall k :: 0 <= k < |raw| ==> IntLike(raw[k])) || (forall k :: 0 <= k < |raw| ==> raw[k].JString?)
    ensures r.Ok? ==> |r.value| == |raw| && forall k :: 0 <= k < |raw| ==> r.value[k] == KeyOf(raw[k])
    ensures r.Err? ==> (r.fault == UnorderableKeys <==> forall k :: 0 <= k < |raw| ==> raw[k].JArray?)
    ensures r.Err? ==> r.fault == UnorderableKeys || r.fault == TypeError
  {
    if (forall k :: 0 <= k < |raw| ==> IntLike(raw[k])) || (forall k :: 0 <= k < |raw| ==> raw[k].JString?) then
      Ok(seq(|raw|, k requires 0 <= k < |raw| => KeyOf(raw[k])))
    else if forall k :: 0 <= k < |raw| ==> raw[k].JArray? then Err(UnorderableKeys)
    else Err(TypeError)
  }

  /**
   * `sorted(dictionary_list, key=lambda x: x['page'])`: the keys are taken
   * first; fewer than two pages are never compared.
   */
  function SortPages(pages: seq<Json>): (r: Result<seq<Json>>)
    ensures r.Ok? ==> |r.value| == |pages|
    ensures r.Err? ==> r.fault == TypeError || r.fault == KeyError("page") || r.fault == UnorderableKeys
  {
    match PageFields(pages)
    case Err(f) => Err(f)
    case Ok(raw) =>
      if |pages| < 2 then Ok(pages)
      else
        match OrderKeys(raw)
        case Err(f) => Err(f)
        case Ok(keys) => Ok(Values(SortItems(Number(keys, pages))))
  }

  /** Sorting fails only on a missing `page` key or on keys it cannot compare. */
  lemma SortPagesFails(pages: seq<Json>)
    requires forall k :: 0 <= k < |pages| ==> pages[k].JObject?
    ensures SortPages(pages).Err? <==>
      || (exists k :: 0 <= k < |pages| && !HasKey(pages[k].fields, "page"))
      || (2 <= |pages| && PageFields(pages).Ok? && OrderKeys(PageFields(pages).value).Err?)
  {
  }

  /** The pages of one sorted year, with the keys they are sorted by. */
  function SortedItems(pages: seq<Json>): seq<Item<Json>>
    requires SortPages(pages).Ok? && 2 <= |pages|
  {
    var keys := OrderKeys(PageFields(pages).value).value;
    SortItems(Number(keys, pages))
  }

  /** Every sorted item is a page of the input, at its input position, with the key of its `page` value. */
  lemma SortedItemsFrom(pages: seq<Json>)
    requires SortPages(pages).Ok? && 2 <= |pages|
    ensures SortPages(pages).value == Values(SortedItems(pages))
    ensures SortedBy(SortedItems(pages))
    ensures forall x :: x in SortedItems(pages) ==>
      x.index < |pages| && x.value == pages[x.index] && x.key == KeyOf(PageFields(pages).value[x.index])
  {
    var keys := OrderKeys(PageFields(pages).value).value;
    var xs := Number(keys, pages);
    SortItemsCorrect(xs);
    NumberedMembers(keys, pages, SortItems(xs));
  }

  /** The combined pages are the loaded pages rearranged. */
  lemma SortPagesPermutes(pages: seq<Json>)
    requires SortPages(pages).Ok?
    ensures multiset(SortPages(pages).value) == multiset(pages)
  {
    if 2 <= |pages| {
      var keys := OrderKeys(PageFields(pages).value).value;
      var xs := Number(keys, pages);
      SortValues(xs);
      NumberedValues(keys, pages);
    }
  }

  /**
   * The combined pages ascend by their `page` keys, and pages with equal
   * keys keep their listing order.
   */
  lemma SortPagesOrder(pages: seq<Json>)
    requires SortPages(pages).Ok? && 2 <= |pages|
    ensures var r := SortedItems(pages);
      && (forall i, j :: 0 <= i < j < |r| ==> !KeyLt(r[j].key, r[i].key))
      && (forall i, j :: 0 <= i < j < |r| && r[i].key == r[j].key ==> r[i].index < r[j].index)
  {
    SortedItemsFrom(pages);
    SortedMeans(SortedItems(pages));
  }

  // ---------------------------------------------------------------- a year

  /** Lines 9-22 for the directory `name`: its object, or the exception that ends the run. */
  function CombineYear(name: string, entries: seq<Entry>): (r: Result<Output>)
    ensures r.Ok? ==> r.value.path == OutputPath(SplitExtRoot(name)) && r.value.content.JObject?
    ensures r.Ok? ==> Get(r.value.content.fields, "year") == Some(JString(SplitExtRoot(name)))
    ensures r.Ok? ==> var pages := Get(r.value.content.fields, "pages");
      && pages.Some? && pages.value.JArray?
      && forall p :: p in pages.value.items ==> p.JObject? && !HasKey(p.fields, "year")
  {
    var root := SplitExtRoot(name);
    match LoadPages(ByName(entries))
    case Err(f) => Err(f)
    case Ok(pages) =>
      match SortPages(pages)
      case Err(f) => Err(f)
      case Ok(sorted) =>
        SortPagesPermutes(pages);
        assert forall p :: p in sorted ==> p in multiset(pages);
        Ok(Output(OutputPath(root), JObject([("year", JString(root)), ("pages", JArray(sorted))])))
  }

  method CombineDir(name: string, entries: seq<Entry>) returns (r: Result<Output>)
    ensures r == CombineYear(name, entries)
  {
    var loaded := LoadYear(ByName(entries));
    if loaded.Err? {
      return Err(loaded.fault);
    }
    var sorted := SortPages(loaded.value);
    if sorted.Err? {
      return Err(sorted.fault);
    }
    var root := SplitExtRoot(name);
    r := Ok(Output(OutputPath(root), JObject([("year", JString(root)), ("pages", JArray(sorted.value))])));
  }

  /** A combined object holds the year, the directory name without its extension, and the sorted pages. */
  lemma CombinedYear(name: string, entries: seq<Entry>)
    requires CombineYear(name, entries).Ok?
    ensures var out := CombineYear(name, entries).value;
      && out.path == OutputPath(SplitExtRoot(name))
      && out.content == JObject([("year", JString(SplitExtRoot(name))),
                                 ("pages", JArray(SortPages(LoadPages(ByName(entries)).value).value))])
  {
  }

  /**
   * The pages of a combined object: one per file other than `.DS_Store`,
   * each what `json.load` and `pop` make of one of those files.
   */
  lemma CombinedPages(name: string, entries: seq<Entry>)
    requires CombineYear(name, entries).Ok?
    ensures var pages := CombineYear(name, entries).value.content.fields[1].1.items;
      var files := Kept(ByName(entries));
      && |pages| == |files|
      && forall p :: p in pages ==> exists f :: f in files && Ok(p) == LoadPage(f)
  {
    var files := ByName(entries);
    var loaded := LoadPages(files).value;
    CombinedYear(name, entries);
    LoadedPages(files);
    SortPagesPermutes(loaded);
    RearrangedLoads(Kept(files), loaded, SortPages(loaded).value);
  }

  /** A rearrangement of the pages loaded from some files is as long, and each page comes from one of them. */
  lemma RearrangedLoads(files: seq<Entry>, loaded: seq<Json>, pages: seq<Json>)
    requires |loaded| == |files| && forall k :: 0 <= k < |loaded| ==> Ok(loaded[k]) == LoadPage(files[k])
    requires multiset(pages) == multiset(loaded)
    ensures |pages| == |files|
    ensures forall p :: p in pages ==> exists f :: f in files && Ok(p) == LoadPage(f)
  {
    CountOfRearranged(pages, loaded);
    forall p | p in pages ensures exists f :: f in files && Ok(p) == LoadPage(f) {
      assert p in multiset(loaded);
      var k :| 0 <= k < |loaded| && loaded[k] == p;
      assert files[k] in files;
    }
  }

  lemma CountOfRearranged(a: seq<Json>, b: seq<Json>)
    requires multiset(a) == multiset(b)
    ensures |a| == |b|
  {
    assert |multiset(a)| == |multiset(b)|;
  }

  // ---------------------------------------------------------------- the run

  /** The outputs of the outer loop over a sorted listing, and the exception that ended it, if any. */
  function RunAll(entries: seq<Entry>): (r: (seq<Output>, Option<Fault>))
    ensures |r.0| <= |entries|
    ensures forall o :: o in r.0 ==> exists e :: e in entries && e.Dir? && CombineYear(e.name, e.entries) == Ok(o)
  {
    if entries == [] then ([], None)
    else
      var prev := RunAll(entries[..|entries| - 1]);
      var e := entries[|entries| - 1];
      if prev.1.Some? || !e.Dir? then prev
      else
        match CombineYear(e.name, e.entries)
        case Err(f) => (prev.0, Some(f))
        case Ok(out) => (prev.0 + [out], None)
  }

  /** The directories of a listing, in order. */
  function Dirs(entries: seq<Entry>): (r: seq<Entry>)
    ensures forall e :: e in r ==> e in entries && e.Dir?
  {
    if entries == [] then []
    else
      var init := Dirs(entries[..|entries| - 1]);
      var e := entries[|entries| - 1];
      if e.Dir? then init + [e] else init
  }

  /**
   * Only directories make output: a run that ends normally has written one
   * object per directory, in listing order, and a failed run fewer.
   */
  lemma {:induction false} RunAllOutputs(entries: seq<Entry>)
    ensures |RunAll(entries).0| <= |Dirs(entries)|
    ensures RunAll(entries).1.None? ==> var outs := RunAll(entries).0;
      && |outs| == |Dirs(entries)|
      && forall k :: 0 <= k < |outs| ==> Ok(outs[k]) == CombineYear(Dirs(entries)[k].name, Dirs(entries)[k].entries)
  {
    if entries != [] {
      RunAllOutputs(entries[..|entries| - 1]);
    }
  }

  lemma {:induction false} RunFailureStays(entries: seq<Entry>, n: nat)
    requires n <= |entries| && RunAll(entries[..n]).1.Some?
    ensures RunAll(entries) == RunAll(entries[..n])
    decreases |entries| - n
  {
    if n < |entries| {
      assert entries[..n + 1][..n] == entries[..n];
      RunFailureStays(entries, n + 1);
    } else {
      assert entries[..n] == entries;
    }
  }

  lemma RunStep(entries: seq<Entry>, k: nat, outs: seq<Output>)
    requires k < |entries| && RunAll(entries[..k]) == (outs, None)
    ensures RunAll(entries[..k + 1]) ==
      if !entries[k].Dir? then (outs, None)
      else match CombineYear(entries[k].name, entries[k].entries)
        case Err(f) => (outs, Some(f))
        case Ok(out) => (outs + [out], None)
  {
    assert entries[..k + 1][..k] == entries[..k];
  }

  /** The script: every directory of the sorted listing, until one raises. */
  method CombineAll(listing: seq<Entry>) returns (outs: seq<Output>, fault: Option<Fault>)
    ensures (outs, fault) == RunAll(ByName(listing))
  {
    var entries := ByName(listing);
    outs := [];
    for k := 0 to |entries|
      invariant RunAll(entries[..k]) == (outs, None)
    {
      RunStep(entries, k, outs);
      var e := entries[k];
      if e.Dir? {
        var r := CombineDir(e.name, e.entries);
        if r.Err? {
          RunFailureStays(entries, k + 1);
          return outs, Some(r.fault);
        }
        outs := outs + [r.value];
      }
    }
    assert entries[..|entries|] == entries;
    fault := None;
  }
}
