/** What the export run promises, stated about the functions of module
    `Downloader` that the `Downloader` methods are proved to follow:
    pagination, which failures end the run and which are only logged, and
    where each attachment is written. */
module DownloaderProperties {
  import opened Wrappers
  import opened Models
  import opened FileManager
  import opened Client
  import opened Downloader
  import opened Paths
  import Config

  // ---------------------------------------------------------------------
  // Views of a trace
  // ---------------------------------------------------------------------

  /** The (page, page size) of each `List` call, in order. */
  function ListCalls(es: seq<Event>): seq<(int, int)> {
    if es == [] then [] else (if es[0].List? then [(es[0].page, es[0].pageSize)] else []) + ListCalls(es[1..])
  }

  /** `n` calls for the pages `start`, `start + 1`, ..., all with page size `size`. */
  function Consecutive(start: int, n: nat, size: int): seq<(int, int)> {
    seq(n, i => (start + i, size))
  }

  /** The identifiers of the `Get` calls, in order. */
  function GetIds(es: seq<Event>): seq<string> {
    if es == [] then [] else (if es[0].Get? then [es[0].id] else []) + GetIds(es[1..])
  }

  /** A failure that ends the run. */
  predicate Fatal(e: Event) {
    (e.List? || e.Get?) && !e.ok
  }

  predicate NoFatal(es: seq<Event>) {
    forall k :: 0 <= k < |es| ==> !Fatal(es[k])
  }

  /** No call but the last is a fatal failure. */
  predicate FatalOnlyAtEnd(es: seq<Event>) {
    forall k :: 0 <= k < |es| - 1 ==> !Fatal(es[k])
  }

  predicate EndsFatal(es: seq<Event>) {
    es != [] && Fatal(es[|es| - 1])
  }

  /** Only directory and file operations. */
  predicate FileOperations(es: seq<Event>) {
    forall k :: 0 <= k < |es| ==> es[k].Mkdir? || es[k].Download?
  }

  /** No `List` calls. */
  predicate NoListing(es: seq<Event>) {
    forall k :: 0 <= k < |es| ==> !es[k].List?
  }

  /** The path `p` begins, as text, with the directory `d` and a separator:
      where the path lies before `filepath.Clean` resolves its `..`
      segments (see `TitleClimbsOut`). */
  predicate Beneath(p: string, d: string) {
    |d| < |p| && p[..|d| + 1] == d + [Separator]
  }

  lemma {:induction false} ListCallsAppend(a: seq<Event>, b: seq<Event>)
    ensures ListCalls(a + b) == ListCalls(a) + ListCalls(b)
    decreases |a|
  {
    if a == [] {
      assert a + b == b;
    } else {
      assert (a + b)[0] == a[0] && (a + b)[1..] == a[1..] + b;
      ListCallsAppend(a[1..], b);
      var head := if a[0].List? then [(a[0].page, a[0].pageSize)] else [];
      AppendAssoc(head, ListCalls(a[1..]), ListCalls(b));
    }
  }

  lemma {:induction false} GetIdsAppend(a: seq<Event>, b: seq<Event>)
    ensures GetIds(a + b) == GetIds(a) + GetIds(b)
    decreases |a|
  {
    if a == [] {
      assert a + b == b;
    } else {
      assert (a + b)[0] == a[0] && (a + b)[1..] == a[1..] + b;
      GetIdsAppend(a[1..], b);
      var head := if a[0].Get? then [a[0].id] else [];
      AppendAssoc(head, GetIds(a[1..]), GetIds(b));
    }
  }

  lemma {:induction false} ListCallsOfNoListing(es: seq<Event>)
    requires NoListing(es)
    ensures ListCalls(es) == []
    decreases |es|
  {
    if es != [] {
      ListCallsOfNoListing(es[1..]);
    }
  }

  lemma {:induction false} GetIdsOfFileOperations(es: seq<Event>)
    requires FileOperations(es)
    ensures GetIds(es) == []
    decreases |es|
  {
    if es != [] {
      GetIdsOfFileOperations(es[1..]);
    }
  }

  lemma ConsecutiveCons(start: int, n: nat, size: int)
    ensures [(start, size)] + Consecutive(start + 1, n, size) == Consecutive(start, n + 1, size)
  {
    var l := [(start, size)] + Consecutive(start + 1, n, size);
    assert forall i :: 0 <= i < n + 1 ==> l[i] == (start + i, size);
  }

  /** Calls with no fatal failure in front of `b` change neither whether
      the trace ends in a fatal failure nor where fatal failures can be. */
  lemma AppendAfterClean(a: seq<Event>, b: seq<Event>)
    requires NoFatal(a)
    ensures FatalOnlyAtEnd(b) ==> FatalOnlyAtEnd(a + b)
    ensures EndsFatal(a + b) <==> EndsFatal(b)
    ensures b != [] ==> (a + b)[|a + b| - 1] == b[|b| - 1]
  {
    if FatalOnlyAtEnd(b) {
      forall k | 0 <= k < |a + b| - 1
        ensures !Fatal((a + b)[k])
      {
        if k >= |a| {
          assert (a + b)[k] == b[k - |a|];
        }
      }
    }
  }

  lemma NoFatalAppend(a: seq<Event>, b: seq<Event>)
    requires NoFatal(a) && NoFatal(b)
    ensures NoFatal(a + b)
  {
    forall k | 0 <= k < |a + b|
      ensures !Fatal((a + b)[k])
    {
      if k >= |a| {
        assert (a + b)[k] == b[k - |a|];
      }
    }
  }

  lemma NoListingAppend(a: seq<Event>, b: seq<Event>)
    requires NoListing(a) && NoListing(b)
    ensures NoListing(a + b)
  {
    forall k | 0 <= k < |a + b|
      ensures !(a + b)[k].List?
    {
      if k >= |a| {
        assert (a + b)[k] == b[k - |a|];
      }
    }
  }

  // ---------------------------------------------------------------------
  // One item: processItem
  // ---------------------------------------------------------------------

  /** The calls of one item: for each attachment of `atts` in order,
      `MkdirAll` of `dir` and then the download of that attachment under
      `itemId` to its destination in `paths`, possibly ending early. */
  predicate Alternates(es: seq<Event>, itemId: string, dir: string, atts: seq<Attachment>, paths: seq<string>)
    requires |paths| == |atts|
  {
    && |es| <= 2 * |atts|
    && (forall k :: 0 <= k < |es| && k % 2 == 0 ==> es[k] == Mkdir(dir, es[k].ok))
    && (forall k :: 0 <= k < |es| && k % 2 == 1 ==> es[k] == Download(itemId, atts[k / 2].id, paths[k / 2], es[k].ok))
  }

  /** Every call but the last succeeded; the item fails exactly when the
      last call failed, and otherwise all `n` attachments were downloaded;
      the error names the directory or the attachment that failed. */
  predicate StopsAtFirstFailure(o: Outcome<ItemError>, n: nat, dir: string) {
    var es := o.events;
    && FileOperations(es)
    && (forall k :: 0 <= k < |es| - 1 ==> es[k].ok)
    && (o.error.None? <==> |es| == 2 * n && forall k :: 0 <= k < |es| ==> es[k].ok)
    && (o.error.Some? ==> es != [] && !es[|es| - 1].ok)
    && (o.error.Some? && o.error.value.MkdirFailed? ==> o.error.value.path == dir && es[|es| - 1] == Mkdir(dir, false))
    && (o.error.Some? && o.error.value.DownloadFailed? ==>
          es[|es| - 1].Download? && es[|es| - 1].attachmentId == o.error.value.attachmentId)
  }

  /** The attachments are handled in order, each by one `MkdirAll` and one
      download. */
  lemma {:induction false} AttachmentsRunLayout(env: Environment, itemId: string, dir: string, atts: seq<Attachment>, paths: seq<string>)
    requires |paths| == |atts|
    ensures Alternates(AttachmentsRun(env, itemId, dir, atts, paths).events, itemId, dir, atts, paths)
    decreases |atts|
  {
    if atts != [] {
      var first := AttachmentRun(env, itemId, dir, atts[0], paths[0]);
      if first.error.None? {
        AttachmentsRunLayout(env, itemId, dir, atts[1..], paths[1..]);
        var rest := AttachmentsRun(env, itemId, dir, atts[1..], paths[1..]).events;
        var es := AttachmentsRun(env, itemId, dir, atts, paths).events;
        assert es == first.events + rest;
        forall k | 2 <= k < |es|
          ensures es[k] == rest[k - 2]
          ensures k % 2 == 1 ==> atts[k / 2] == atts[1..][(k - 2) / 2] && paths[k / 2] == paths[1..][(k - 2) / 2]
        {
        }
      }
    }
  }

  /** Two successful file calls in front of an item's remaining calls keep
      its first failure the one that ends it. */
  lemma CleanPassKeepsStops(first: seq<Event>, rest: Outcome<ItemError>, n: nat, dir: string)
    requires |first| == 2 && first[0].ok && first[1].ok && FileOperations(first)
    requires StopsAtFirstFailure(rest, n, dir)
    ensures StopsAtFirstFailure(Outcome(first + rest.events, rest.error), n + 1, dir)
  {
    var es := first + rest.events;
    assert forall k :: 2 <= k < |es| ==> es[k] == rest.events[k - 2];
    assert forall k :: 0 <= k < 2 ==> es[k] == first[k];
    if forall k :: 0 <= k < |rest.events| ==> rest.events[k].ok {
      forall k | 0 <= k < |es|
        ensures es[k].ok
      {
        if k >= 2 {
          assert es[k] == rest.events[k - 2];
        }
      }
    }
    if forall k :: 0 <= k < |es| ==> es[k].ok {
      forall k | 0 <= k < |rest.events|
        ensures rest.events[k].ok
      {
        assert es[k + 2] == rest.events[k];
      }
    }
  }

  /** The first failed call ends the item. */
  lemma {:induction false} AttachmentsRunStops(env: Environment, itemId: string, dir: string, atts: seq<Attachment>, paths: seq<string>)
    requires |paths| == |atts|
    ensures StopsAtFirstFailure(AttachmentsRun(env, itemId, dir, atts, paths), |atts|, dir)
    decreases |atts|
  {
    if atts != [] {
      var first := AttachmentRun(env, itemId, dir, atts[0], paths[0]);
      if first.error.None? {
        AttachmentsRunStops(env, itemId, dir, atts[1..], paths[1..]);
        var rest := AttachmentsRun(env, itemId, dir, atts[1..], paths[1..]);
        assert AttachmentsRun(env, itemId, dir, atts, paths) == Outcome(first.events + rest.events, rest.error);
        assert |first.events| == 2 && first.events[0].ok && first.events[1].ok;
        CleanPassKeepsStops(first.events, rest, |atts| - 1, dir);
      } else {
        assert AttachmentsRun(env, itemId, dir, atts, paths) == first;
        assert first.events != [] && !first.events[|first.events| - 1].ok;
      }
    }
  }

  /** `processItem(item)`: for each attachment in order, `MkdirAll` of the
      item directory and then the download of the attachment, under the
      item's own identifier, to its target path (`Targets`). An item
      without attachments makes no call at all. */
  lemma ItemRunLayout(env: Environment, root: string, namer: Namer, item: Item)
    ensures Alternates(ItemRun(env, root, namer, item).events, item.id, ItemDirectory(root, namer, item), item.attachments,
      Targets(root, namer, item, item.attachments))
    ensures item.attachments == [] ==> ItemRun(env, root, namer, item).events == []
  {
    AttachmentsRunLayout(env, item.id, ItemDirectory(root, namer, item), item.attachments, Targets(root, namer, item, item.attachments));
  }

  /** A failed directory or download ends the item: its remaining
      attachments are skipped, and the item succeeds exactly when every
      attachment was downloaded. */
  lemma ItemRunStopsAtFailure(env: Environment, root: string, namer: Namer, item: Item)
    ensures StopsAtFirstFailure(ItemRun(env, root, namer, item), |item.attachments|, ItemDirectory(root, namer, item))
  {
    AttachmentsRunStops(env, item.id, ItemDirectory(root, namer, item), item.attachments, Targets(root, namer, item, item.attachments));
  }

  /** A download follows, right away, a successful `MkdirAll` of the
      directory. */
  lemma DownloadAfterMkdir(o: Outcome<ItemError>, itemId: string, dir: string, atts: seq<Attachment>, paths: seq<string>)
    requires |paths| == |atts|
    requires Alternates(o.events, itemId, dir, atts, paths) && StopsAtFirstFailure(o, |atts|, dir)
    ensures forall k :: 0 <= k < |o.events| && o.events[k].Download? ==> k > 0 && o.events[k - 1] == Mkdir(dir, true)
  {
    var es := o.events;
    forall k | 0 <= k < |es| && es[k].Download?
      ensures k > 0 && es[k - 1] == Mkdir(dir, true)
    {
      assert k % 2 == 1;
      assert (k - 1) % 2 == 0;
    }
  }

  /** A namer that never gives an empty directory or file name. */
  ghost predicate NamesNonEmpty(namer: Namer) {
    && (forall item: Item :: namer.directoryName(item) != "")
    && (forall item: Item, attachment: Attachment :: namer.fileName(item, attachment) != "")
  }

  /** The file manager's names are never empty. */
  lemma FileManagerNamesNonEmpty()
    ensures NamesNonEmpty(FileManagerNamer)
  {
    forall item: Item
      ensures FileManagerNamer.directoryName(item) != ""
    {
      GenerateDirectoryShape(item);
    }
    forall item: Item, attachment: Attachment
      ensures FileManagerNamer.fileName(item, attachment) != ""
    {
      FileNameEndsWithExtension(item, attachment);
    }
  }

  /** The target path is the item directory, a separator and the file
      name, as text. */
  lemma TargetInItemDirectory(root: string, namer: Namer, item: Item, attachment: Attachment)
    requires NamesNonEmpty(namer)
    ensures TargetPath(root, namer, item, attachment) == ItemDirectory(root, namer, item) + [Separator] + namer.fileName(item, attachment)
    ensures Beneath(TargetPath(root, namer, item, attachment), ItemDirectory(root, namer, item))
  {
    var d := ItemDirectory(root, namer, item);
    assert d != "" && namer.fileName(item, attachment) != "";
    assert (d + [Separator] + namer.fileName(item, attachment))[..|d| + 1] == d + [Separator];
  }

  /** With the file manager, an attachment goes to
      `<root>/<GenerateDirectory(item)>/<GenerateFilename(item, attachment)>`,
      which begins, as text, with the item directory. */
  lemma FileManagerTarget(root: string, item: Item, attachment: Attachment)
    ensures ItemDirectory(root, FileManagerNamer, item) == Join(root, GenerateDirectory(item))
    ensures TargetPath(root, FileManagerNamer, item, attachment)
      == Join(root, GenerateDirectory(item)) + [Separator] + FileNameFor(item, attachment)
    ensures Beneath(TargetPath(root, FileManagerNamer, item, attachment), ItemDirectory(root, FileManagerNamer, item))
  {
    FileManagerNamesNonEmpty();
    TargetInItemDirectory(root, FileManagerNamer, item, attachment);
  }

  // ---------------------------------------------------------------------
  // Titles that climb out: `filepath.Join` cleans the path it builds, and
  // the title goes into the file name unsanitized
  // ---------------------------------------------------------------------

  /** A file name of the form `../../f` takes the cleaned target out of
      the item directory and out of a one-segment root: the path `Join`
      returns is just `f`, though the uncleaned path begins with the item
      directory. */
  lemma TitleClimbsOut(root: string, namer: Namer, item: Item, attachment: Attachment, f: string)
    requires PlainName(root) && PlainName(namer.directoryName(item)) && PlainName(f)
    requires namer.fileName(item, attachment) == Climb(f)
    ensures Beneath(TargetPath(root, namer, item, attachment), ItemDirectory(root, namer, item))
    ensures Clean(ItemDirectory(root, namer, item)) == ItemDirectory(root, namer, item)
    ensures Clean(TargetPath(root, namer, item, attachment)) == f
    ensures !Beneath(Clean(TargetPath(root, namer, item, attachment)), root)
  {
    var dir := namer.directoryName(item);
    var target := TargetPath(root, namer, item, attachment);
    var d := root + [Separator] + dir;
    assert ItemDirectory(root, namer, item) == d;
    assert target == d + [Separator] + Climb(f);
    assert target[..|d| + 1] == d + [Separator];
    CleanKeepsNames(root, dir);
    CleanClimbsOut(root, dir, f);
    if |root| < |f| {
      assert f[..|root| + 1][|root|] == f[|root|];
    }
  }

  lemma ExportClimbNames()
    ensures "../../x.pdf" == Climb("x.pdf")
    ensures "export" + [Separator] + "Test Item_abc123" == "export/Test Item_abc123"
    ensures PlainName("export") && PlainName("Test Item_abc123") && PlainName("x.pdf")
  {
  }

  lemma ExportClimbsOut(root: string, item: Item, a: Attachment)
    requires root == "export" && GenerateDirectory(item) == "Test Item_abc123"
    requires FileNameFor(item, a) == "../../x.pdf"
    ensures ItemDirectory(root, FileManagerNamer, item) == "export/Test Item_abc123"
    ensures Clean(TargetPath(root, FileManagerNamer, item, a)) == "x.pdf"
  {
    ExportClimbNames();
    TitleClimbsOut(root, FileManagerNamer, item, a, "x.pdf");
  }

  /** The title `../../x.pdf` of an attachment of the item `Test Item`
      under the root `export`: the file is written to `x.pdf`. */
  lemma TitleClimbsOutExample(root: string, item: Item, a: Attachment)
    requires root == "export"
    requires a == Attachment("att123", Document("../../x.pdf")) && item == Item("abc123-456def", "Test Item", [a])
    ensures ItemDirectory(root, FileManagerNamer, item) == "export/Test Item_abc123"
    ensures Clean(TargetPath(root, FileManagerNamer, item, a)) == "x.pdf"
  {
    GenerateFilenameExampleClimb(item, a);
    GenerateDirectoryExampleClimb(item, a);
    ExportClimbsOut(root, item, a);
  }

  /** The file name the file manager evidently means: `GenerateFilename`
      with the invalid characters replaced, as `sanitizeFilename` does for
      the item name (see `PlainFileName`). */
  function SafeFileNameFor(item: Item, attachment: Attachment): (r: string)
    ensures PlainName(r)
  {
    FileNameEndsWithExtension(item, attachment);
    PlainFileName(FileNameFor(item, attachment))
  }

  /** The correction changes no name that was already plain and valid. */
  lemma SafeFileNameKeepsValidNames(item: Item, attachment: Attachment)
    requires PlainName(FileNameFor(item, attachment)) && NoInvalidChars(FileNameFor(item, attachment))
    ensures SafeFileNameFor(item, attachment) == FileNameFor(item, attachment)
  {
    FileNameEndsWithExtension(item, attachment);
    PlainFileNameKeepsValidNames(FileNameFor(item, attachment));
  }

  const SafeFileManagerNamer: Namer := Namer(GenerateDirectory, SafeFileNameFor)

  /** The corrected names are never empty, so every property proved here
      of a namer with non-empty names holds of the corrected namer too. */
  lemma SafeFileManagerNamesNonEmpty()
    ensures NamesNonEmpty(SafeFileManagerNamer)
  {
    forall item: Item
      ensures SafeFileManagerNamer.directoryName(item) != ""
    {
      GenerateDirectoryShape(item);
    }
  }

  /** With the corrected names, the cleaned target is the file name
      directly inside the cleaned item directory. */
  lemma SafeTargetInItemDirectory(root: string, item: Item, attachment: Attachment)
    ensures Clean(TargetPath(root, SafeFileManagerNamer, item, attachment))
      == InDirectory(Clean(ItemDirectory(root, SafeFileManagerNamer, item)), SafeFileNameFor(item, attachment))
  {
    SafeFileManagerNamesNonEmpty();
    TargetInItemDirectory(root, SafeFileManagerNamer, item, attachment);
    CleanAppendName(ItemDirectory(root, SafeFileManagerNamer, item), SafeFileNameFor(item, attachment));
  }

  // ---------------------------------------------------------------------
  // One page: processItems
  // ---------------------------------------------------------------------

  lemma ItemRunClean(env: Environment, root: string, namer: Namer, item: Item)
    ensures NoFatal(ItemRun(env, root, namer, item).events)
    ensures NoListing(ItemRun(env, root, namer, item).events)
    ensures GetIds(ItemRun(env, root, namer, item).events) == []
  {
    ItemRunStopsAtFailure(env, root, namer, item);
    GetIdsOfFileOperations(ItemRun(env, root, namer, item).events);
  }

  /** A page makes no `List` call. */
  lemma {:induction false} ItemsRunNoListing(env: Environment, root: string, namer: Namer, items: seq<Item>)
    ensures NoListing(ItemsRun(env, root, namer, items).events)
    decreases |items|
  {
    if items != [] {
      ItemsRunStep(env, root, namer, items);
      var r := Fetch(env, items[0].id);
      if r.Success? {
        ItemsRunNoListing(env, root, namer, items[1..]);
        ItemRunClean(env, root, namer, r.value);
        var head := [Get(items[0].id, true)];
        NoListingAppend(head, ItemRun(env, root, namer, r.value).events);
        NoListingAppend(head + ItemRun(env, root, namer, r.value).events, ItemsRun(env, root, namer, items[1..]).events);
      }
    }
  }

  /** The only fatal failure a page can have is a failed `Get`, which is its
      last call and its error. */
  predicate EndsAtGetFailure(o: Outcome<ExportError>) {
    var es := o.events;
    && FatalOnlyAtEnd(es)
    && (o.error.Some? <==> EndsFatal(es))
    && (o.error.Some? ==> o.error.value.GetFailed? && es[|es| - 1] == Get(o.error.value.id, false))
  }

  /** Only a failed `Get` ends a page early; failed items do not. */
  lemma {:induction false} ItemsRunFatal(env: Environment, root: string, namer: Namer, items: seq<Item>)
    ensures EndsAtGetFailure(ItemsRun(env, root, namer, items))
    decreases |items|
  {
    if items != [] {
      ItemsRunStep(env, root, namer, items);
      var r := Fetch(env, items[0].id);
      if r.Success? {
        ItemsRunFatal(env, root, namer, items[1..]);
        var item := ItemRun(env, root, namer, r.value).events;
        ItemRunClean(env, root, namer, r.value);
        var head := [Get(items[0].id, true)];
        NoFatalAppend(head, item);
        AppendAfterClean(head + item, ItemsRun(env, root, namer, items[1..]).events);
      }
    }
  }

  predicate AllFetched(env: Environment, items: seq<Item>) {
    forall i :: 0 <= i < |items| ==> Fetch(env, items[i].id).Success?
  }

  /** A failed item is only logged: a page fails exactly when one of its
      items cannot be fetched. */
  lemma {:induction false} ItemsRunSucceedsIff(env: Environment, root: string, namer: Namer, items: seq<Item>)
    ensures ItemsRun(env, root, namer, items).error.None? <==> AllFetched(env, items)
    decreases |items|
  {
    if items != [] {
      ItemsRunStep(env, root, namer, items);
      if Fetch(env, items[0].id).Success? {
        ItemsRunSucceedsIff(env, root, namer, items[1..]);
        assert forall i :: 1 <= i < |items| ==> items[1..][i - 1] == items[i];
      }
    }
  }

  /** The items are fetched in order, one `Get` each, up to and including
      the first one `Get` fails on, whose error the page returns. */
  predicate FetchesInOrder(env: Environment, items: seq<Item>, o: Outcome<ExportError>) {
    var ids := GetIds(o.events);
    && |ids| <= |items|
    && (forall i :: 0 <= i < |ids| ==> ids[i] == items[i].id)
    && (o.error.None? ==> |ids| == |items|)
    && (o.error.Some? ==>
          && |ids| >= 1
          && (forall i :: 0 <= i < |ids| - 1 ==> Fetch(env, items[i].id).Success?)
          && Fetch(env, items[|ids| - 1].id).Failure?
          && o.error == Some(GetFailed(items[|ids| - 1].id, Fetch(env, items[|ids| - 1].id).error)))
  }

  /** The `Get` calls of a page, in terms of its first item. */
  lemma ItemsRunGetIdsStep(env: Environment, root: string, namer: Namer, items: seq<Item>)
    requires items != []
    ensures var ids := GetIds(ItemsRun(env, root, namer, items).events);
      if Fetch(env, items[0].id).Failure? then ids == [items[0].id]
      else ids == [items[0].id] + GetIds(ItemsRun(env, root, namer, items[1..]).events)
  {
    ItemsRunStep(env, root, namer, items);
    var r := Fetch(env, items[0].id);
    if r.Success? {
      var item := ItemRun(env, root, namer, r.value).events;
      ItemRunClean(env, root, namer, r.value);
      GetIdsAppend([Get(items[0].id, true)], item);
      GetIdsAppend([Get(items[0].id, true)] + item, ItemsRun(env, root, namer, items[1..]).events);
    } else {
      assert GetIds([Get(items[0].id, false)]) == [items[0].id];
    }
  }

  lemma {:induction false} ItemsRunFetchesInOrder(env: Environment, root: string, namer: Namer, items: seq<Item>)
    ensures FetchesInOrder(env, items, ItemsRun(env, root, namer, items))
    decreases |items|
  {
    if items != [] {
      ItemsRunGetIdsStep(env, root, namer, items);
      if Fetch(env, items[0].id).Success? {
        ItemsRunStep(env, root, namer, items);
        ItemsRunFetchesInOrder(env, root, namer, items[1..]);
        assert forall i :: 1 <= i < |items| ==> items[1..][i - 1] == items[i];
      } else {
        ItemsRunStep(env, root, namer, items);
      }
    }
  }

  /** `e` downloads one attachment of the full item `Get(id)` returned, into
      that attachment's target path. */
  predicate PlannedDownload(env: Environment, root: string, namer: Namer, id: string, e: Event) {
    && Fetch(env, id).Success?
    && (exists j :: 0 <= j < |Fetch(env, id).value.attachments| &&
          e == Download(Fetch(env, id).value.id, Fetch(env, id).value.attachments[j].id,
            TargetPath(root, namer, Fetch(env, id).value, Fetch(env, id).value.attachments[j]), e.ok))
  }

  /** A download of one item is of an attachment of the full item `Get`
      returned, to its target path, inside the directory created just
      before. */
  lemma ItemDownloadPlanned(env: Environment, root: string, namer: Namer, id: string, m: int)
    requires NamesNonEmpty(namer)
    requires Fetch(env, id).Success?
    requires 0 <= m < |ItemRun(env, root, namer, Fetch(env, id).value).events|
    requires ItemRun(env, root, namer, Fetch(env, id).value).events[m].Download?
    ensures var es := ItemRun(env, root, namer, Fetch(env, id).value).events;
      && PlannedDownload(env, root, namer, id, es[m])
      && m > 0 && es[m - 1].Mkdir? && es[m - 1].ok && Beneath(es[m].path, es[m - 1].path)
  {
    var full := Fetch(env, id).value;
    var o := ItemRun(env, root, namer, full);
    var atts := full.attachments;
    var dir := ItemDirectory(root, namer, full);
    var paths := Targets(root, namer, full, atts);
    ItemRunLayout(env, root, namer, full);
    ItemRunStopsAtFailure(env, root, namer, full);
    DownloadAfterMkdir(o, full.id, dir, atts, paths);
    assert m % 2 == 1;
    var j := m / 2;
    TargetInItemDirectory(root, namer, full, atts[j]);
    assert o.events[m] == Download(full.id, atts[j].id, TargetPath(root, namer, full, atts[j]), o.events[m].ok);
  }

  /** Every download of a page is of an attachment of the full item fetched
      for one of the page's items (not of the summary the page listed),
      to its target path, right after its directory was created. */
  predicate DownloadsPlanned(env: Environment, root: string, namer: Namer, items: seq<Item>, es: seq<Event>) {
    forall k :: 0 <= k < |es| && es[k].Download? ==>
      && (exists i :: 0 <= i < |items| && PlannedDownload(env, root, namer, items[i].id, es[k]))
      && k > 0 && es[k - 1].Mkdir? && es[k - 1].ok && Beneath(es[k].path, es[k - 1].path)
  }

  lemma {:induction false} ItemsRunDownloads(env: Environment, root: string, namer: Namer, items: seq<Item>)
    requires NamesNonEmpty(namer)
    ensures DownloadsPlanned(env, root, namer, items, ItemsRun(env, root, namer, items).events)
    decreases |items|
  {
    if items != [] {
      ItemsRunStep(env, root, namer, items);
      var r := Fetch(env, items[0].id);
      if r.Success? {
        ItemsRunDownloads(env, root, namer, items[1..]);
        var item := ItemRun(env, root, namer, r.value).events;
        var rest := ItemsRun(env, root, namer, items[1..]).events;
        var es := ItemsRun(env, root, namer, items).events;
        assert es == [Get(items[0].id, true)] + item + rest;
        forall k | 0 <= k < |es| && es[k].Download?
          ensures exists i :: 0 <= i < |items| && PlannedDownload(env, root, namer, items[i].id, es[k])
          ensures k > 0 && es[k - 1].Mkdir? && es[k - 1].ok && Beneath(es[k].path, es[k - 1].path)
        {
          if k <= |item| {
            assert es[k] == item[k - 1];
            ItemDownloadPlanned(env, root, namer, items[0].id, k - 1);
            assert es[k - 1] == item[k - 2];
          } else {
            var m := k - 1 - |item|;
            assert es[k] == rest[m];
            var i :| 0 <= i < |items[1..]| && PlannedDownload(env, root, namer, items[1..][i].id, rest[m]);
            assert items[1..][i] == items[i + 1];
            assert es[k - 1] == rest[m - 1];
          }
        }
      }
    }
  }

  // ---------------------------------------------------------------------
  // The whole run: DownloadAll
  // ---------------------------------------------------------------------

  /** Page `page` lists items and all of them can be fetched, so the run
      goes on to the next page. */
  predicate Continues(env: Environment, cfg: Config.Settings, namer: Namer, page: int) {
    var r := ListAt(env, page);
    r.Listed? && r.items != [] && ItemsRun(env, cfg.downloadPath, namer, r.items).error.None?
  }

  /** The `List` calls of a run from page `page`, by the answer to that page. */
  lemma RunFromListCallsStep(env: Environment, cfg: Config.Settings, namer: Namer, page: int)
    requires page >= 1
    ensures var calls := ListCalls(RunFrom(env, cfg, namer, page).events);
      if Continues(env, cfg, namer, page) then
        page <= |env.listing| && calls == [(page, cfg.pageSize)] + ListCalls(RunFrom(env, cfg, namer, page + 1).events)
      else calls == [(page, cfg.pageSize)]
  {
    RunFromStep(env, cfg, namer, page);
    var r := ListAt(env, page);
    var head := [List(page, cfg.pageSize, r.Listed?)];
    assert ListCalls(head) == [(page, cfg.pageSize)];
    if r.Listed? && r.items != [] {
      var batch := ItemsRun(env, cfg.downloadPath, namer, r.items);
      ItemsRunNoListing(env, cfg.downloadPath, namer, r.items);
      ListCallsOfNoListing(batch.events);
      ListCallsAppend(head, batch.events);
      if batch.error.None? {
        ListCallsAppend(head + batch.events, RunFrom(env, cfg, namer, page + 1).events);
      }
    }
  }

  /** The error of a run from page `page`, by the answer to that page. */
  lemma RunFromErrorStep(env: Environment, cfg: Config.Settings, namer: Namer, page: int)
    requires page >= 1
    ensures var r := ListAt(env, page);
      var err := RunFrom(env, cfg, namer, page).error;
      && (r.ListError? ==> err == Some(ListFailed(page, r.reason)))
      && (r.Listed? && r.items == [] ==> err == None)
      && (r.Listed? && r.items != [] && !Continues(env, cfg, namer, page) ==> err == ItemsRun(env, cfg.downloadPath, namer, r.items).error && err.Some?)
      && (Continues(env, cfg, namer, page) ==> err == RunFrom(env, cfg, namer, page + 1).error)
  {
    RunFromStep(env, cfg, namer, page);
  }

  /** Pages are requested one after the other from `page` on, always with
      the configured page size; at least one page is requested, and never a
      page after the one past the end of the listing. */
  lemma {:induction false} RunFromListsConsecutivePages(env: Environment, cfg: Config.Settings, namer: Namer, page: int)
    requires page >= 1
    ensures var calls := ListCalls(RunFrom(env, cfg, namer, page).events);
      && |calls| >= 1
      && calls == Consecutive(page, |calls|, cfg.pageSize)
      && page + |calls| - 1 <= if page <= |env.listing| then |env.listing| + 1 else page
    decreases |env.listing| + 1 - page
  {
    RunFromListCallsStep(env, cfg, namer, page);
    if Continues(env, cfg, namer, page) {
      RunFromListsConsecutivePages(env, cfg, namer, page + 1);
      ConsecutiveCons(page, |ListCalls(RunFrom(env, cfg, namer, page + 1).events)|, cfg.pageSize);
    } else {
      assert Consecutive(page, 1, cfg.pageSize) == [(page, cfg.pageSize)];
    }
  }

  /** `DownloadAll` requests pages 1, 2, 3, ... with the configured page
      size, at most one more page than the listing has. */
  lemma RunListsConsecutivePages(env: Environment, cfg: Config.Settings, namer: Namer)
    ensures var calls := ListCalls(Run(env, cfg, namer).events);
      && 1 <= |calls| <= |env.listing| + 1
      && calls == Consecutive(1, |calls|, cfg.pageSize)
  {
    RunFromListsConsecutivePages(env, cfg, namer, 1);
  }

  /** The last page a run from `page` requests is empty and every earlier
      one listed items. */
  predicate StopsAtEmptyPage(env: Environment, page: int, calls: nat) {
    var last := page + calls - 1;
    && ListAt(env, last) == Listed([])
    && forall p :: page <= p < last ==> ListAt(env, p).Listed? && ListAt(env, p).items != []
  }

  /** A run that does not fail stops at the first empty page. */
  lemma {:induction false} RunFromSuccessEndsAtEmptyPage(env: Environment, cfg: Config.Settings, namer: Namer, page: int)
    requires page >= 1
    ensures RunFrom(env, cfg, namer, page).error.None? ==> StopsAtEmptyPage(env, page, |ListCalls(RunFrom(env, cfg, namer, page).events)|)
    decreases |env.listing| + 1 - page
  {
    RunFromErrorStep(env, cfg, namer, page);
    RunFromListCallsStep(env, cfg, namer, page);
    if Continues(env, cfg, namer, page) {
      RunFromSuccessEndsAtEmptyPage(env, cfg, namer, page + 1);
    }
  }

  /** Page `n` is the first empty page of the listing. */
  predicate FirstEmptyPage(env: Environment, n: int) {
    && n >= 1
    && ListAt(env, n) == Listed([])
    && forall p :: 1 <= p < n ==> ListAt(env, p).Listed? && ListAt(env, p).items != []
  }

  /** Every item listed before page `n` can be fetched. */
  predicate FetchesSucceedBefore(env: Environment, n: int) {
    forall p :: 1 <= p < n && ListAt(env, p).Listed? ==> AllFetched(env, ListAt(env, p).items)
  }

  /** Before the first empty page, with every fetch succeeding, the run
      goes on to the next page. */
  lemma ContinuesBeforeFirstEmptyPage(env: Environment, cfg: Config.Settings, namer: Namer, page: int, n: int)
    requires 1 <= page < n
    requires FirstEmptyPage(env, n) && FetchesSucceedBefore(env, n)
    ensures Continues(env, cfg, namer, page)
  {
    ItemsRunSucceedsIff(env, cfg.downloadPath, namer, ListAt(env, page).items);
  }

  lemma {:induction false} RunFromUpToFirstEmptyPageSucceeds(env: Environment, cfg: Config.Settings, namer: Namer, page: int, n: int)
    requires 1 <= page <= n
    requires FirstEmptyPage(env, n) && FetchesSucceedBefore(env, n)
    ensures RunFrom(env, cfg, namer, page).error.None?
    decreases n - page
  {
    RunFromErrorStep(env, cfg, namer, page);
    if page < n {
      ContinuesBeforeFirstEmptyPage(env, cfg, namer, page, n);
      RunFromUpToFirstEmptyPageSucceeds(env, cfg, namer, page + 1, n);
    }
  }

  lemma {:induction false} RunFromUpToFirstEmptyPageLists(env: Environment, cfg: Config.Settings, namer: Namer, page: int, n: int)
    requires 1 <= page <= n
    requires FirstEmptyPage(env, n) && FetchesSucceedBefore(env, n)
    ensures ListCalls(RunFrom(env, cfg, namer, page).events) == Consecutive(page, n - page + 1, cfg.pageSize)
    decreases n - page
  {
    RunFromListCallsStep(env, cfg, namer, page);
    if page < n {
      ContinuesBeforeFirstEmptyPage(env, cfg, namer, page, n);
      RunFromUpToFirstEmptyPageLists(env, cfg, namer, page + 1, n);
      ConsecutiveCons(page, n - page, cfg.pageSize);
    } else {
      assert !Continues(env, cfg, namer, page);
      assert Consecutive(page, 1, cfg.pageSize) == [(page, cfg.pageSize)];
    }
  }

  /** When nothing fails before the first empty page `n`, a run from page
      `page` succeeds and lists exactly the pages `page` to `n`. */
  lemma RunFromUpToFirstEmptyPage(env: Environment, cfg: Config.Settings, namer: Namer, page: int, n: int)
    requires 1 <= page <= n
    requires FirstEmptyPage(env, n) && FetchesSucceedBefore(env, n)
    ensures RunFrom(env, cfg, namer, page).error.None?
    ensures ListCalls(RunFrom(env, cfg, namer, page).events) == Consecutive(page, n - page + 1, cfg.pageSize)
  {
    RunFromUpToFirstEmptyPageSucceeds(env, cfg, namer, page, n);
    RunFromUpToFirstEmptyPageLists(env, cfg, namer, page, n);
  }

  /** When page `n` is the first empty page and nothing fails, `DownloadAll`
      returns nil having called `List` exactly `n` times; and a run that
      returns nil has called it exactly `n` times. */
  lemma ListsExactlyUpToFirstEmptyPage(env: Environment, cfg: Config.Settings, namer: Namer, n: int)
    requires FirstEmptyPage(env, n)
    ensures FetchesSucceedBefore(env, n) ==>
      Run(env, cfg, namer).error.None? && ListCalls(Run(env, cfg, namer).events) == Consecutive(1, n, cfg.pageSize)
    ensures Run(env, cfg, namer).error.None? ==> |ListCalls(Run(env, cfg, namer).events)| == n
  {
    if FetchesSucceedBefore(env, n) {
      RunFromUpToFirstEmptyPage(env, cfg, namer, 1, n);
    }
    if Run(env, cfg, namer).error.None? {
      RunFromSuccessEndsAtEmptyPage(env, cfg, namer, 1);
      RunFromListsConsecutivePages(env, cfg, namer, 1);
      var last := |ListCalls(Run(env, cfg, namer).events)|;
      assert ListAt(env, last) == Listed([]);
    }
  }

  /** A failed `List` or `Get` ends the run at once: it is the last call,
      no earlier call is one, and it is the error returned. Nothing else
      makes the run fail. */
  predicate EndsAtFatal(o: Outcome<ExportError>, pageSize: int) {
    var es := o.events;
    && FatalOnlyAtEnd(es)
    && (o.error.Some? <==> EndsFatal(es))
    && (o.error.Some? ==>
          || (o.error.value.ListFailed? && es[|es| - 1] == List(o.error.value.page, pageSize, false))
          || (o.error.value.GetFailed? && es[|es| - 1] == Get(o.error.value.id, false)))
  }

  /** A page that fails on a `Get` ends the run there. */
  lemma FailedPageEndsAtFatal(page: int, pageSize: int, batch: Outcome<ExportError>)
    requires EndsAtGetFailure(batch) && batch.error.Some?
    ensures EndsAtFatal(Outcome([List(page, pageSize, true)] + batch.events, batch.error), pageSize)
  {
    AppendAfterClean([List(page, pageSize, true)], batch.events);
  }

  /** A page without fatal failure in front of the rest of the run changes
      nothing about where the run fails. */
  lemma CleanPageKeepsEndsAtFatal(page: int, pageSize: int, batch: Outcome<ExportError>, rest: Outcome<ExportError>)
    requires EndsAtGetFailure(batch) && batch.error.None? && EndsAtFatal(rest, pageSize)
    ensures EndsAtFatal(Outcome([List(page, pageSize, true)] + batch.events + rest.events, rest.error), pageSize)
  {
    var head := [List(page, pageSize, true)];
    assert NoFatal(batch.events);
    NoFatalAppend(head, batch.events);
    AppendAfterClean(head + batch.events, rest.events);
  }

  lemma {:induction false} RunFromStopsAtFatal(env: Environment, cfg: Config.Settings, namer: Namer, page: int)
    requires page >= 1
    ensures EndsAtFatal(RunFrom(env, cfg, namer, page), cfg.pageSize)
    decreases |env.listing| + 1 - page
  {
    RunFromStep(env, cfg, namer, page);
    var r := ListAt(env, page);
    if r.Listed? && r.items != [] {
      var batch := ItemsRun(env, cfg.downloadPath, namer, r.items);
      ItemsRunFatal(env, cfg.downloadPath, namer, r.items);
      if batch.error.Some? {
        FailedPageEndsAtFatal(page, cfg.pageSize, batch);
      } else {
        RunFromStopsAtFatal(env, cfg, namer, page + 1);
        CleanPageKeepsEndsAtFatal(page, cfg.pageSize, batch, RunFrom(env, cfg, namer, page + 1));
      }
    }
  }

  /** `DownloadAll` fails only on a failed `List` or `Get`, which is the last
      call it makes. */
  lemma RunStopsAtFatal(env: Environment, cfg: Config.Settings, namer: Namer)
    ensures EndsAtFatal(Run(env, cfg, namer), cfg.pageSize)
    ensures Run(env, cfg, namer).error.Some? ==> Run(env, cfg, namer).error.value.ListFailed? || Run(env, cfg, namer).error.value.GetFailed?
  {
    RunFromStopsAtFatal(env, cfg, namer, 1);
  }

  /** Two environments with the same server and possibly different disk
      failures. */
  predicate SameServer(a: Environment, b: Environment) {
    a.unparsableURLs == b.unparsableURLs && a.accounts == b.accounts && a.listing == b.listing && a.details == b.details
  }

  lemma {:induction false} ItemsRunIgnoresFileFailures(a: Environment, b: Environment, root: string, namer: Namer, items: seq<Item>)
    requires SameServer(a, b)
    ensures ItemsRun(a, root, namer, items).error == ItemsRun(b, root, namer, items).error
    ensures GetIds(ItemsRun(a, root, namer, items).events) == GetIds(ItemsRun(b, root, namer, items).events)
    decreases |items|
  {
    if items != [] {
      ItemsRunStep(a, root, namer, items);
      ItemsRunStep(b, root, namer, items);
      ItemsRunGetIdsStep(a, root, namer, items);
      ItemsRunGetIdsStep(b, root, namer, items);
      assert Fetch(a, items[0].id) == Fetch(b, items[0].id);
      if Fetch(a, items[0].id).Success? {
        ItemsRunIgnoresFileFailures(a, b, root, namer, items[1..]);
      }
    }
  }

  /** Directory and download failures change neither the error of
      `DownloadAll` nor the pages and items it asks the server for. */
  lemma {:induction false} RunFromIgnoresFileFailures(a: Environment, b: Environment, cfg: Config.Settings, namer: Namer, page: int)
    requires SameServer(a, b) && page >= 1
    ensures RunFrom(a, cfg, namer, page).error == RunFrom(b, cfg, namer, page).error
    ensures ListCalls(RunFrom(a, cfg, namer, page).events) == ListCalls(RunFrom(b, cfg, namer, page).events)
    decreases |a.listing| + 1 - page
  {
    RunFromErrorStep(a, cfg, namer, page);
    RunFromErrorStep(b, cfg, namer, page);
    RunFromListCallsStep(a, cfg, namer, page);
    RunFromListCallsStep(b, cfg, namer, page);
    assert ListAt(a, page) == ListAt(b, page);
    if ListAt(a, page).Listed? {
      ItemsRunIgnoresFileFailures(a, b, cfg.downloadPath, namer, ListAt(a, page).items);
    }
    if Continues(a, cfg, namer, page) {
      RunFromIgnoresFileFailures(a, b, cfg, namer, page + 1);
    }
  }

  // ---------------------------------------------------------------------
  // New
  // ---------------------------------------------------------------------

  /** An invalid configuration is rejected before any login or directory
      creation, with the validation error. */
  lemma StartupRejectsInvalidConfigFirst(s: Config.Settings, env: Environment)
    requires Config.Validated(s).Failure?
    ensures Startup(s, env) == Outcome([], Some(InvalidConfig(Config.Validated(s).error)))
  {
  }

  /** `New` succeeds exactly when the configuration is valid, the server URL
      parses, the login is accepted and the download root can be created;
      it then has logged in and created the root, in that order. Any
      directory creation comes after a successful login. */
  lemma StartupSucceedsIff(s: Config.Settings, env: Environment)
    ensures var o := Startup(s, env);
      && (o.error.None? <==>
            Config.Validated(s).Success? && ParsesURL(env, s.serverURL) && AcceptsLogin(env, s.username, s.password)
            && MkdirSucceeds(env, s.downloadPath))
      && (o.error.None? ==> o.events == [Login(s.username, true), Mkdir(s.downloadPath, true)])
      && (forall k :: 0 <= k < |o.events| && o.events[k].Mkdir? ==> k == 1 && o.events[0] == Login(s.username, true))
  {
  }
}
