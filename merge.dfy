/** `MergeFiles` (`actions/merge.go`): concatenates several documents into
    one. The content record is the first document's with the page count and
    the page ids of all of them; the pagedata lines are concatenated; every
    annotation file is renamed to the page it lands on, by running `RunLines`
    with the single action "insert `rolling` pages before page 1", where
    `rolling` is the number of pages of the documents before it. Reading the
    archives, the fresh uuid and the PDF merge are outside the model: the
    documents and the uuid are parameters. */
module Merge {
  import opened Wrappers
  import opened GoStrings
  import opened Actions
  import opened FileNames
  import opened IndexRemap
  import opened Documents

  // ---------------------------------------------------------------- mergeSlices

  /** The slices one after another. */
  function Concat(slices: seq<seq<string>>): seq<string>
  {
    if |slices| == 0 then [] else Concat(slices[..|slices| - 1]) + slices[|slices| - 1]
  }

  /** The total length of the slices. */
  function Lengths(slices: seq<seq<string>>): nat
  {
    if |slices| == 0 then 0 else Lengths(slices[..|slices| - 1]) + |slices[|slices| - 1]|
  }

  /** `mergeSlices`: appends every slice in turn to an empty result. */
  method MergeSlices(slices: seq<seq<string>>) returns (r: seq<string>)
    ensures r == Concat(slices)
  {
    r := [];
    var i := 0;
    while i < |slices|
      invariant 0 <= i <= |slices|
      invariant r == Concat(slices[..i])
    {
      assert slices[..i + 1][..i] == slices[..i];
      r := r + slices[i];
      i := i + 1;
    }
    assert slices[..i] == slices;
  }

  /** Concatenation distributes over joining the lists of slices. */
  lemma {:induction false} ConcatAppend(a: seq<seq<string>>, b: seq<seq<string>>)
    ensures Concat(a + b) == Concat(a) + Concat(b)
    decreases |b|
  {
    if |b| == 0 {
      assert a + b == a;
    } else {
      var b' := b[..|b| - 1];
      assert (a + b)[..|a + b| - 1] == a + b';
      ConcatAppend(a, b');
    }
  }

  /** The result holds every item of every slice: its length is the total. */
  lemma {:induction false} ConcatLength(slices: seq<seq<string>>)
    ensures |Concat(slices)| == Lengths(slices)
  {
    if |slices| > 0 {
      ConcatLength(slices[..|slices| - 1]);
    }
  }

  /** Item `j` of slice `d` sits after all items of the slices before it. */
  lemma ConcatPosition(slices: seq<seq<string>>, d: int, j: int)
    requires 0 <= d < |slices| && 0 <= j < |slices[d]|
    ensures Lengths(slices[..d]) + j < |Concat(slices)|
    ensures Concat(slices)[Lengths(slices[..d]) + j] == slices[d][j]
  {
    assert slices == slices[..d + 1] + slices[d + 1..];
    ConcatAppend(slices[..d + 1], slices[d + 1..]);
    assert slices[..d + 1][..d] == slices[..d];
    ConcatLength(slices[..d]);
    ConcatLength(slices);
  }

  /** `k` nil slices, what `make` fills a slice of slices with. */
  function Nils(k: nat): (r: seq<seq<string>>)
    ensures |r| == k && forall i :: 0 <= i < k ==> r[i] == []
  {
    seq(k, i => [])
  }

  /** Nil slices add nothing to the concatenation. */
  lemma {:induction false} ConcatNils(k: nat)
    ensures Concat(Nils(k)) == []
  {
    if k > 0 {
      assert Nils(k)[..k - 1] == Nils(k - 1);
      ConcatNils(k - 1);
    }
  }

  /** So padding the list of slices with nils changes nothing. */
  lemma ConcatPadded(slices: seq<seq<string>>, k: nat)
    ensures Concat(slices + Nils(k)) == Concat(slices)
  {
    ConcatAppend(slices, Nils(k));
    ConcatNils(k);
  }

  // ---------------------------------------------------------------- sizing

  /** One document's list per slot: `make([][]string, size)` followed by
      `all[i] = ...` for every document. A negative size panics in `make`;
      a size below the number of documents panics at the first index past
      the end. */
  method Collect(slices: seq<seq<string>>, size: int) returns (r: Result<seq<seq<string>>>)
    ensures size < 0 ==> r == Panic(LengthOutOfRange)
    ensures 0 <= size < |slices| ==> r == Panic(IndexOutOfRange)
    ensures size >= |slices| ==> r == Ok(slices + Nils(size - |slices|))
  {
    if size < 0 {
      return Panic(LengthOutOfRange);
    }
    var all := Nils(size);
    var i := 0;
    while i < |slices|
      invariant 0 <= i <= |slices| && i <= size && |all| == size
      invariant forall k :: 0 <= k < size ==> all[k] == if k < i then slices[k] else []
    {
      if i >= size {
        return Panic(IndexOutOfRange);
      }
      all := all[i := slices[i]];
      i := i + 1;
    }
    assert all == slices + Nils(size - |slices|);
    return Ok(all);
  }

  /** The page ids of each document. */
  function PagesOf(docs: seq<Document>): (r: seq<seq<string>>)
    ensures |r| == |docs| && forall d :: 0 <= d < |docs| ==> r[d] == docs[d].content.pages
  {
    seq(|docs|, d requires 0 <= d < |docs| => docs[d].content.pages)
  }

  /** The pagedata lines of each document. */
  function PagedataOf(docs: seq<Document>): (r: seq<seq<string>>)
    ensures |r| == |docs| && forall d :: 0 <= d < |docs| ==> r[d] == docs[d].pagedata
  {
    seq(|docs|, d requires 0 <= d < |docs| => docs[d].pagedata)
  }

  /** The sum of the documents' page counts. */
  function TotalPages(docs: seq<Document>): int
  {
    if |docs| == 0 then 0 else TotalPages(docs[..|docs| - 1]) + docs[|docs| - 1].content.pageCount
  }

  /** The pages before document `d`: where its first page lands. */
  function Offset(docs: seq<Document>, d: int): int
    requires 0 <= d <= |docs|
  {
    TotalPages(docs[..d])
  }

  /** The length of the slice lists: the total page count as written, the
      number of documents when `sizeByDocs` is set. */
  function SlotCount(docs: seq<Document>, sizeByDocs: bool): int
  {
    if sizeByDocs then |docs| else TotalPages(docs)
  }

  // ---------------------------------------------------------------- annotation files

  /** Every annotation name of the file map encodes a page index. */
  predicate NamesParse(files: map<string, seq<bv8>>)
  {
    forall fn :: fn in files ==> GetIdxFromFileName(fn).Ok?
  }

  /** ... in every document. */
  predicate AllNamesParse(docs: seq<Document>)
  {
    forall d :: 0 <= d < |docs| ==> NamesParse(docs[d].rmFiles)
  }

  /** Some annotation name of some document fails to parse, with `cause`. */
  ghost predicate BadName(docs: seq<Document>, cause: Cause)
  {
    exists d, fn :: 0 <= d < |docs| && fn in docs[d].rmFiles && GetIdxFromFileName(fn) == Panic(cause)
  }

  /** The name an annotation gets when its document's pages start at `off`:
      its index moved up by `off`. */
  function RenamedBy(fn: string, off: int): string
    requires GetIdxFromFileName(fn).Ok?
  {
    var i := GetIdxFromFileName(fn).value;
    RenameWith(fn, PageReplacement(i, i + off, false))
  }

  /** The new names of the annotations among `fs`. */
  ghost function NamesIn(fs: set<string>, off: int): set<string>
  {
    set fn | fn in fs && GetIdxFromFileName(fn).Ok? :: RenamedBy(fn, off)
  }

  /** The new names of document `d`'s annotations. */
  ghost function DocNames(docs: seq<Document>, d: int): set<string>
    requires 0 <= d < |docs|
  {
    NamesIn(docs[d].rmFiles.Keys, Offset(docs, d))
  }

  /** The new names of each document's annotations. */
  ghost function NameSets(docs: seq<Document>): (r: seq<set<string>>)
    ensures |r| == |docs| && forall d :: 0 <= d < |docs| ==> r[d] == DocNames(docs, d)
  {
    seq(|docs|, d requires 0 <= d < |docs| => DocNames(docs, d))
  }

  /** The names produced by the first `n` documents. */
  ghost function KeysUpTo(names: seq<set<string>>, n: int): set<string>
    requires 0 <= n <= |names|
  {
    if n == 0 then {} else KeysUpTo(names, n - 1) + names[n - 1]
  }

  /** The last of the first `n` documents that produces `key`, or `-1` when
      none does. */
  ghost function Owner(names: seq<set<string>>, n: int, key: string): (r: int)
    requires 0 <= n <= |names|
    ensures -1 <= r < n
  {
    if n == 0 then -1
    else if key in names[n - 1] then n - 1
    else Owner(names, n - 1, key)
  }

  /** `Owner` is the last producer: `key` is among the first `n` documents'
      names exactly when it has an owner, the owner produces it, and no
      document after the owner does. */
  lemma {:induction false} OwnerIsLast(names: seq<set<string>>, n: int, key: string)
    requires 0 <= n <= |names|
    ensures Owner(names, n, key) >= 0 <==> key in KeysUpTo(names, n)
    ensures Owner(names, n, key) >= 0 ==> key in names[Owner(names, n, key)]
    ensures forall e :: Owner(names, n, key) < e < n ==> key !in names[e]
  {
    if n > 0 && key !in names[n - 1] {
      OwnerIsLast(names, n - 1, key);
    }
  }

  /** The annotation map of the first `n` documents: every new name, each
      holding the bytes of a file its owner renamed to it. */
  ghost predicate MergedFilesUpTo(docs: seq<Document>, n: int, m: map<string, seq<bv8>>)
    requires 0 <= n <= |docs|
  {
    && m.Keys == KeysUpTo(NameSets(docs), n)
    && forall key :: key in m ==>
         var o := Owner(NameSets(docs), n, key);
         o >= 0 && FileOf(docs, o, key, m[key])
  }

  /** Document `d` has an annotation renamed to `key` with contents `bytes`. */
  ghost predicate FileOf(docs: seq<Document>, d: int, key: string, bytes: seq<bv8>)
    requires 0 <= d < |docs|
  {
    exists fn :: fn in docs[d].rmFiles && GetIdxFromFileName(fn).Ok?
      && RenamedBy(fn, Offset(docs, d)) == key && docs[d].rmFiles[fn] == bytes
  }

  /** The keys of a Go map, in whatever order `range` visits them. */
  method ListKeys(files: map<string, seq<bv8>>) returns (names: seq<string>)
    ensures forall f :: f in names <==> f in files
  {
    names := [];
    var todo := files.Keys;
    while todo != {}
      invariant todo <= files.Keys
      invariant forall f :: f in names <==> f in files && f !in todo
      decreases |todo|
    {
      var f :| f in todo;
      names := names + [f];
      todo := todo - {f};
    }
  }

  /** The annotation names `RunLines` is given: a delete-free single insert
      sends index `i` to `i + off`; it panics exactly on a name without an
      index, with that name's cause. */
  method Relabel(files: map<string, seq<bv8>>, off: int) returns (r: Result<map<string, PageReplacement>>)
    ensures r.Ok? <==> NamesParse(files)
    ensures r.Panic? ==> exists fn :: fn in files && GetIdxFromFileName(fn) == Panic(r.cause)
    ensures r.Ok? ==> forall fn :: fn in files ==>
      fn in r.value && r.value[fn] == PageReplacement(GetIdxFromFileName(fn).value, GetIdxFromFileName(fn).value + off, false)
  {
    var names := ListKeys(files);
    var acts := new Action[1](_ => Insert(off, 1, false));
    assert acts[..] == [Insert(off, 1, false)];
    r := RunLines(names, acts);
    assert acts[..] == [Insert(off, 1, false)] by {
      assert acts[0] in multiset(acts[..]);
    }
    if r.Panic? {
      FirstBadIndexCause(names);
    } else {
      MergeRelabel(names, off);
    }
  }

  /** The map after storing the files named in `done` over `acc`: every new
      name of one of them, holding that file's bytes; every other entry as
      in `acc`. */
  ghost predicate Stored(acc: map<string, seq<bv8>>, files: map<string, seq<bv8>>, off: int,
                         done: set<string>, m: map<string, seq<bv8>>)
  {
    && m.Keys == acc.Keys + NamesIn(done, off)
    && forall key :: key in m ==>
         if key in NamesIn(done, off) then FromFile(files, done, off, key, m[key])
         else m[key] == acc[key]
  }

  /** A file among `done` is renamed to `key` and holds `bytes`. */
  ghost predicate FromFile(files: map<string, seq<bv8>>, done: set<string>, off: int, key: string, bytes: seq<bv8>)
  {
    exists fn :: fn in done && fn in files && GetIdxFromFileName(fn).Ok?
      && RenamedBy(fn, off) == key && files[fn] == bytes
  }

  /** A file of `fs` whose name parses contributes its new name. */
  lemma NamesInMember(fs: set<string>, off: int, fn: string)
    requires fn in fs && GetIdxFromFileName(fn).Ok?
    ensures RenamedBy(fn, off) in NamesIn(fs, off)
  {
  }

  /** Adding a file to `done` adds its new name. */
  lemma NamesInAdd(done: set<string>, fn: string, off: int)
    requires GetIdxFromFileName(fn).Ok?
    ensures NamesIn(done + {fn}, off) == NamesIn(done, off) + {RenamedBy(fn, off)}
  {
  }

  /** A witness among `done` is still one among `done + {fn}`. */
  lemma FromFileGrows(files: map<string, seq<bv8>>, done: set<string>, off: int, key: string, bytes: seq<bv8>, fn: string)
    requires FromFile(files, done, off, key, bytes)
    ensures FromFile(files, done + {fn}, off, key, bytes)
  {
    var g :| g in done && g in files && GetIdxFromFileName(g).Ok? && RenamedBy(g, off) == key && files[g] == bytes;
    assert g in done + {fn};
  }

  /** One entry of the map after storing `fn`. */
  lemma StoreKey(acc: map<string, seq<bv8>>, files: map<string, seq<bv8>>, off: int,
                 done: set<string>, m: map<string, seq<bv8>>, fn: string, key: string)
    requires Stored(acc, files, off, done, m)
    requires fn in files && GetIdxFromFileName(fn).Ok?
    requires key in m[RenamedBy(fn, off) := files[fn]]
    requires NamesIn(done + {fn}, off) == NamesIn(done, off) + {RenamedBy(fn, off)}
    ensures var m' := m[RenamedBy(fn, off) := files[fn]];
      if key in NamesIn(done + {fn}, off) then FromFile(files, done + {fn}, off, key, m'[key])
      else m'[key] == acc[key]
  {
    if key == RenamedBy(fn, off) {
      assert fn in done + {fn};
    } else if key in NamesIn(done, off) {
      FromFileGrows(files, done, off, key, m[key], fn);
    }
  }

  /** The keys after storing `fn`. */
  lemma StoreKeys(accKeys: set<string>, m: map<string, seq<bv8>>, done: set<string>, off: int, fn: string, bytes: seq<bv8>)
    requires GetIdxFromFileName(fn).Ok?
    requires m.Keys == accKeys + NamesIn(done, off)
    requires NamesIn(done + {fn}, off) == NamesIn(done, off) + {RenamedBy(fn, off)}
    ensures m[RenamedBy(fn, off) := bytes].Keys == accKeys + NamesIn(done + {fn}, off)
  {
    assert m[RenamedBy(fn, off) := bytes].Keys == m.Keys + {RenamedBy(fn, off)};
  }

  /** Storing one more file keeps `Stored`. */
  lemma StoreOne(acc: map<string, seq<bv8>>, files: map<string, seq<bv8>>, off: int,
                 done: set<string>, m: map<string, seq<bv8>>, fn: string)
    requires Stored(acc, files, off, done, m)
    requires fn in files && GetIdxFromFileName(fn).Ok?
    ensures Stored(acc, files, off, done + {fn}, m[RenamedBy(fn, off) := files[fn]])
  {
    var m' := m[RenamedBy(fn, off) := files[fn]];
    NamesInAdd(done, fn, off);
    StoreKeys(acc.Keys, m, done, off, fn, files[fn]);
    forall key | key in m'
      ensures if key in NamesIn(done + {fn}, off) then FromFile(files, done + {fn}, off, key, m'[key])
              else m'[key] == acc[key]
    {
      StoreKey(acc, files, off, done, m, fn, key);
    }
  }

  /** Nothing stored yet: the map is `acc`. */
  lemma StoredNothing(acc: map<string, seq<bv8>>, files: map<string, seq<bv8>>, off: int)
    ensures Stored(acc, files, off, {}, acc)
  {
    assert NamesIn({}, off) == {};
  }

  /** The inner loop over a document's files: each is stored under the name
      its replacement gives, in whatever order `range` visits them. */
  method StoreAll(acc: map<string, seq<bv8>>, files: map<string, seq<bv8>>, off: int,
                  repls: map<string, PageReplacement>) returns (m: map<string, seq<bv8>>)
    requires NamesParse(files)
    requires forall fn :: fn in files ==>
      fn in repls && repls[fn] == PageReplacement(GetIdxFromFileName(fn).value, GetIdxFromFileName(fn).value + off, false)
    ensures Stored(acc, files, off, files.Keys, m)
  {
    m := acc;
    var todo := files.Keys;
    StoredNothing(acc, files, off);
    assert files.Keys - todo == {};
    while todo != {}
      invariant todo <= files.Keys
      invariant Stored(acc, files, off, files.Keys - todo, m)
      decreases |todo|
    {
      var fn :| fn in todo;
      var repl := repls[fn];
      var newFn := RenameWith(fn, repl);
      StoreOne(acc, files, off, files.Keys - todo, m, fn);
      assert files.Keys - (todo - {fn}) == (files.Keys - todo) + {fn};
      m := m[newFn := files[fn]];
      todo := todo - {fn};
    }
    assert files.Keys - todo == files.Keys;
  }

  /** One pass of the inner loops of `MergeFiles`: list the document's
      annotation names, relabel them, and store each file under its new name
      in the merged map. */
  method RenameDocFiles(acc: map<string, seq<bv8>>, files: map<string, seq<bv8>>, off: int)
    returns (r: Result<map<string, seq<bv8>>>)
    ensures r.Ok? <==> NamesParse(files)
    ensures r.Panic? ==> exists fn :: fn in files && GetIdxFromFileName(fn) == Panic(r.cause)
    ensures r.Ok? ==> Stored(acc, files, off, files.Keys, r.value)
  {
    var repls := Relabel(files, off);
    if repls.Panic? {
      return Panic(repls.cause);
    }
    var m := StoreAll(acc, files, off, repls.value);
    return Ok(m);
  }

  /** The pages before document `d + 1` are those before `d` and `d`'s own. */
  lemma OffsetStep(docs: seq<Document>, d: int)
    requires 0 <= d < |docs|
    ensures Offset(docs, d + 1) == Offset(docs, d) + docs[d].content.pageCount
  {
    assert docs[..d + 1][..d] == docs[..d];
  }

  /** Storing document `d`'s renamed files over the map of the documents
      before it gives the map of the first `d + 1` documents. */
  lemma ExtendMerged(docs: seq<Document>, d: int, m: map<string, seq<bv8>>, m': map<string, seq<bv8>>)
    requires 0 <= d < |docs| && MergedFilesUpTo(docs, d, m)
    requires Stored(m, docs[d].rmFiles, Offset(docs, d), docs[d].rmFiles.Keys, m')
    ensures MergedFilesUpTo(docs, d + 1, m')
  {
    var files := docs[d].rmFiles;
    var off := Offset(docs, d);
    var names := NameSets(docs);
    assert KeysUpTo(names, d + 1) == KeysUpTo(names, d) + DocNames(docs, d);
    forall key | key in m'
      ensures Owner(names, d + 1, key) >= 0 && FileOf(docs, Owner(names, d + 1, key), key, m'[key])
    {
      if key in DocNames(docs, d) {
        var fn :| fn in files.Keys && fn in files && GetIdxFromFileName(fn).Ok? && RenamedBy(fn, off) == key && files[fn] == m'[key];
        assert FileOf(docs, d, key, m'[key]);
      } else {
        assert m'[key] == m[key];
      }
    }
  }

  /** The annotation loop of `MergeFiles`: for each document in turn,
      relabel its files by the pages before it and store them in one map,
      later documents overwriting earlier ones on a clash. */
  method MergeRmFiles(docs: seq<Document>) returns (r: Result<map<string, seq<bv8>>>)
    ensures r.Ok? <==> AllNamesParse(docs)
    ensures r.Panic? ==> BadName(docs, r.cause)
    ensures r.Ok? ==> MergedFilesUpTo(docs, |docs|, r.value)
  {
    var rolling := 0;
    var m: map<string, seq<bv8>> := map[];
    var d := 0;
    while d < |docs|
      invariant 0 <= d <= |docs|
      invariant rolling == Offset(docs, d)
      invariant forall e :: 0 <= e < d ==> NamesParse(docs[e].rmFiles)
      invariant MergedFilesUpTo(docs, d, m)
    {
      var next := RenameDocFiles(m, docs[d].rmFiles, rolling);
      if next.Panic? {
        return Panic(next.cause);
      }
      ExtendMerged(docs, d, m, next.value);
      m := next.value;
      OffsetStep(docs, d);
      rolling := rolling + docs[d].content.pageCount;
      d := d + 1;
    }
    return Ok(m);
  }

  // ---------------------------------------------------------------- MergeFiles

  /** The merge completes: there is a first document, the slice lists are
      long enough for every document, and every annotation name parses. */
  predicate MergeAccepts(docs: seq<Document>, sizeByDocs: bool)
  {
    |docs| > 0 && SlotCount(docs, sizeByDocs) >= |docs| && AllNamesParse(docs)
  }

  /** The merged document. */
  ghost predicate Merged(docs: seq<Document>, newUuid: string, out: Document)
  {
    && |docs| > 0
    && out.uuid == newUuid
    && out.content == docs[0].content.(pageCount := TotalPages(docs), pages := Concat(PagesOf(docs)))
    && out.pagedata == Concat(PagedataOf(docs))
    && MergedFilesUpTo(docs, |docs|, out.rmFiles)
  }

  /** `MergeFiles` on documents already read, with the new uuid given.
      `sizeByDocs == false` is the code as written, which sizes the slice
      lists by the total page count; `true` sizes them by the number of
      documents. */
  method MergeDocuments(docs: seq<Document>, newUuid: string, sizeByDocs: bool) returns (r: Result<Document>)
    ensures r.Ok? <==> MergeAccepts(docs, sizeByDocs)
    ensures |docs| == 0 ==> r == Panic(IndexOutOfRange)
    ensures |docs| > 0 && SlotCount(docs, sizeByDocs) < 0 ==> r == Panic(LengthOutOfRange)
    ensures |docs| > 0 && 0 <= SlotCount(docs, sizeByDocs) < |docs| ==> r == Panic(IndexOutOfRange)
    ensures |docs| > 0 && SlotCount(docs, sizeByDocs) >= |docs| && r.Panic? ==> BadName(docs, r.cause)
    ensures r.Ok? ==> Merged(docs, newUuid, r.value)
  {
    if |docs| == 0 {
      return Panic(IndexOutOfRange);
    }
    var first := docs[0].content;
    var total := 0;
    var i := 0;
    while i < |docs|
      invariant 0 <= i <= |docs| && total == TotalPages(docs[..i])
    {
      assert docs[..i + 1][..i] == docs[..i];
      total := total + docs[i].content.pageCount;
      i := i + 1;
    }
    assert docs[..i] == docs;
    var size := if sizeByDocs then |docs| else total;
    var pageSlots := Collect(PagesOf(docs), size);
    if pageSlots.Panic? {
      return Panic(pageSlots.cause);
    }
    var pages := MergeSlices(pageSlots.value);
    ConcatPadded(PagesOf(docs), size - |docs|);
    var dataSlots := Collect(PagedataOf(docs), size);
    assert dataSlots.Ok?;
    var data := MergeSlices(dataSlots.value);
    ConcatPadded(PagedataOf(docs), size - |docs|);
    var rm := MergeRmFiles(docs);
    if rm.Panic? {
      return Panic(rm.cause);
    }
    return Ok(Document(newUuid, first.(pageCount := total, pages := pages), data, rm.value));
  }

  /** `MergeFiles` as written: the slice lists have one slot per page of
      the merged document, so a merge with fewer pages than documents
      panics. */
  method MergeFiles(docs: seq<Document>, newUuid: string) returns (r: Result<Document>)
    ensures r.Ok? <==> |docs| > 0 && TotalPages(docs) >= |docs| && AllNamesParse(docs)
    ensures r.Ok? ==> Merged(docs, newUuid, r.value)
  {
    r := MergeDocuments(docs, newUuid, false);
  }

  /** `MergeFiles` with one slot per document: every non-empty list whose
      annotation names parse merges. */
  method MergeFilesCorrected(docs: seq<Document>, newUuid: string) returns (r: Result<Document>)
    ensures r.Ok? <==> |docs| > 0 && AllNamesParse(docs)
    ensures r.Ok? ==> Merged(docs, newUuid, r.value)
  {
    r := MergeDocuments(docs, newUuid, true);
  }

  /** A document without pages followed by a one-page document: the code as
      written sizes its lists by the single page and panics storing the
      second document; one slot per document merges them. */
  lemma EmptyFirstDocumentRejected()
    ensures var docs := [Document("a", Content(0, [], map[]), [], map[]),
                         Document("b", Content(1, ["p"], map[]), ["Blank"], map[])];
      && TotalPages(docs) == 1
      && !MergeAccepts(docs, false)
      && MergeAccepts(docs, true)
  {
    var docs := [Document("a", Content(0, [], map[]), [], map[]),
                 Document("b", Content(1, ["p"], map[]), ["Blank"], map[])];
    assert docs[..1][..0] == [];
    assert TotalPages(docs[..1]) == 0;
  }

  // ---------------------------------------------------------------- where pages land

  /** When every record's count matches its page list, the page lengths add
      up to the total page count. */
  lemma {:induction false} LengthsArePageCounts(docs: seq<Document>)
    requires forall d :: 0 <= d < |docs| ==> Consistent(docs[d].content)
    ensures Lengths(PagesOf(docs)) == TotalPages(docs)
  {
    if |docs| > 0 {
      var init := docs[..|docs| - 1];
      assert PagesOf(docs)[..|docs| - 1] == PagesOf(init);
      LengthsArePageCounts(init);
    }
  }

  /** In a merge of consistent records, the merged record is consistent and
      page `j` of document `d` is page `Offset(docs, d) + j` of the merge. */
  lemma MergedPagePosition(docs: seq<Document>, d: int, j: int)
    requires forall e :: 0 <= e < |docs| ==> Consistent(docs[e].content)
    requires 0 <= d < |docs| && 0 <= j < |docs[d].content.pages|
    ensures |Concat(PagesOf(docs))| == TotalPages(docs)
    ensures 0 <= Offset(docs, d) + j < |Concat(PagesOf(docs))|
      && Concat(PagesOf(docs))[Offset(docs, d) + j] == docs[d].content.pages[j]
  {
    ConcatLength(PagesOf(docs));
    LengthsArePageCounts(docs);
    ConcatPosition(PagesOf(docs), d, j);
    assert PagesOf(docs)[..d] == PagesOf(docs[..d]);
    LengthsArePageCounts(docs[..d]);
  }

  /** The annotation `<i>-<rest>` of document `d`, for a `rest` without the
      index's digits, is stored as `<Offset(docs, d) + i>-<rest>`: the same
      position its page lands on. */
  lemma MergedAnnotationName(docs: seq<Document>, d: int, i: int, rest: string)
    requires 0 <= d < |docs| && 0 <= i <= MaxInt && !Occurs(Itoa(i), "-" + rest)
    requires Itoa(i) + "-" + rest in docs[d].rmFiles
    ensures Itoa(i + Offset(docs, d)) + "-" + rest in DocNames(docs, d)
  {
    var fn := Itoa(i) + "-" + rest;
    var off := Offset(docs, d);
    DashNameIndex(i, rest);
    assert fn == Itoa(i) + ("-" + rest);
    RenamePrefix(i, i + off, "-" + rest, false);
    assert Itoa(i + off) + ("-" + rest) == Itoa(i + off) + "-" + rest;
    assert RenamedBy(fn, off) == Itoa(i + off) + "-" + rest;
    NamesInMember(docs[d].rmFiles.Keys, off, fn);
  }
}
