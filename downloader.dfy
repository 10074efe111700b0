/** The export orchestrator of internal/downloader/downloader.go. `New`
    validates the configuration, creates the client, logs in and creates
    the download root; `DownloadAll` pages through the item listing until
    the first empty page, fetches each listed item in full and downloads
    its attachments into one directory per item.

    The collaborators are the oracle of module `Client`. Every call the
    downloader makes to them is recorded, in order, in a trace of events,
    which is what the properties in module `DownloaderProperties` are
    stated about. The functions below say what the trace and the returned
    error are for a given oracle; the class methods are proved to produce
    exactly that. */
module Downloader {
  import opened Wrappers
  import opened Models
  import opened FileManager
  import opened Client
  import Config

  /** One call to a collaborator and whether it succeeded. */
  datatype Event =
    | Login(username: string, ok: bool)
    | Mkdir(path: string, ok: bool)
    | List(page: int, pageSize: int, ok: bool)
    | Get(id: string, ok: bool)
    | Download(itemId: string, attachmentId: string, path: string, ok: bool)

  /** The errors `New` and `DownloadAll` return, by the step that failed. */
  datatype ExportError =
    | InvalidConfig(cause: Config.ConfigError)
    | ClientFailed(serverURL: string)
    | LoginFailed(username: string)
    | RootDirFailed(path: string)
    | ListFailed(page: int, reason: string)
    | GetFailed(id: string, reason: string)

  /** The errors `processItem` returns; its caller logs them and goes on. */
  datatype ItemError = MkdirFailed(path: string) | DownloadFailed(attachmentId: string)

  /** The calls made and the error returned, if any. */
  datatype Outcome<E> = Outcome(events: seq<Event>, error: Option<E>)

  /** `filepath.Join(a, b)` on a Unix system: the non-empty parts joined by
      one separator (the `Clean` step is not modelled). Joining three parts
      is joining the first two, then the third. */
  function Join(a: string, b: string): string {
    if a == "" then b else if b == "" then a else a + [Separator] + b
  }

  /** The two names the downloader asks its file manager for: the
      directory of an item and the file of one of its attachments. */
  datatype Namer = Namer(directoryName: Item -> string, fileName: (Item, Attachment) -> string)

  /** The file manager `New` creates (`GenerateDirectory`, `GenerateFilename`). */
  const FileManagerNamer: Namer := Namer(GenerateDirectory, FileNameFor)

  /** The directory `processItem` creates for an item under `root`. */
  function ItemDirectory(root: string, namer: Namer, item: Item): string {
    Join(root, namer.directoryName(item))
  }

  /** The file `processItem` downloads an attachment into: the root, the
      item directory and the file name, joined. */
  function TargetPath(root: string, namer: Namer, item: Item, attachment: Attachment): string {
    Join(Join(root, namer.directoryName(item)), namer.fileName(item, attachment))
  }

  /** The destination of each attachment of `atts`, in order. */
  function Targets(root: string, namer: Namer, item: Item, atts: seq<Attachment>): (r: seq<string>)
    ensures |r| == |atts|
    ensures forall i :: 0 <= i < |atts| ==> r[i] == TargetPath(root, namer, item, atts[i])
  {
    seq(|atts|, i requires 0 <= i < |atts| => TargetPath(root, namer, item, atts[i]))
  }

  /** One pass of `processItem`'s loop: create the item directory `dir`,
      then download the attachment to `path`. */
  function AttachmentRun(env: Environment, itemId: string, dir: string, attachment: Attachment, path: string): Outcome<ItemError> {
    if !MkdirSucceeds(env, dir) then Outcome([Mkdir(dir, false)], Some(MkdirFailed(dir)))
    else
      var ok := DownloadSucceeds(env, itemId, attachment.id, path);
      Outcome([Mkdir(dir, true), Download(itemId, attachment.id, path, ok)],
        if ok then None else Some(DownloadFailed(attachment.id)))
  }

  /** `processItem`'s loop over the attachments `atts` still to be handled,
      whose destinations are `paths`; the first failure ends the item. */
  function AttachmentsRun(env: Environment, itemId: string, dir: string, atts: seq<Attachment>, paths: seq<string>): Outcome<ItemError>
    requires |paths| == |atts|
    decreases |atts|
  {
    if atts == [] then Outcome([], None)
    else
      var first := AttachmentRun(env, itemId, dir, atts[0], paths[0]);
      if first.error.Some? then first
      else
        var rest := AttachmentsRun(env, itemId, dir, atts[1..], paths[1..]);
        Outcome(first.events + rest.events, rest.error)
  }

  /** `processItem(item)`. */
  function ItemRun(env: Environment, root: string, namer: Namer, item: Item): Outcome<ItemError> {
    AttachmentsRun(env, item.id, ItemDirectory(root, namer, item), item.attachments, Targets(root, namer, item, item.attachments))
  }

  /** `processItems(items)`: fetch each item in full and process it; a
      failed fetch ends the batch with that error, a failed item does not. */
  function ItemsRun(env: Environment, root: string, namer: Namer, items: seq<Item>): Outcome<ExportError>
    decreases |items|
  {
    if items == [] then Outcome([], None)
    else
      match Fetch(env, items[0].id)
      case Failure(reason) => Outcome([Get(items[0].id, false)], Some(GetFailed(items[0].id, reason)))
      case Success(full) =>
        var item := ItemRun(env, root, namer, full);
        var rest := ItemsRun(env, root, namer, items[1..]);
        Outcome([Get(items[0].id, true)] + item.events + rest.events, rest.error)
  }

  /** `DownloadAll` from page `page` on: list the page, stop at an error or
      at the first empty page, otherwise process the page's items and go to
      the next page. */
  function RunFrom(env: Environment, cfg: Config.Settings, namer: Namer, page: int): Outcome<ExportError>
    requires page >= 1
    decreases |env.listing| + 1 - page
  {
    match ListAt(env, page)
    case ListError(reason) => Outcome([List(page, cfg.pageSize, false)], Some(ListFailed(page, reason)))
    case Listed(items) =>
      if items == [] then Outcome([List(page, cfg.pageSize, true)], None)
      else
        var batch := ItemsRun(env, cfg.downloadPath, namer, items);
        if batch.error.Some? then Outcome([List(page, cfg.pageSize, true)] + batch.events, batch.error)
        else
          var rest := RunFrom(env, cfg, namer, page + 1);
          Outcome([List(page, cfg.pageSize, true)] + batch.events + rest.events, rest.error)
  }

  /** One step of `ItemsRun`, for item `items[0]`. */
  lemma ItemsRunStep(env: Environment, root: string, namer: Namer, items: seq<Item>)
    requires items != []
    ensures var o := ItemsRun(env, root, namer, items);
      var r := Fetch(env, items[0].id);
      if r.Failure? then o == Outcome([Get(items[0].id, false)], Some(GetFailed(items[0].id, r.error)))
      else
        var full := r.value;
        o.events == [Get(items[0].id, true)] + ItemRun(env, root, namer, full).events
          + ItemsRun(env, root, namer, items[1..]).events
        && o.error == ItemsRun(env, root, namer, items[1..]).error
  {
  }

  lemma AppendAssoc<T>(a: seq<T>, b: seq<T>, c: seq<T>)
    ensures a + (b + c) == (a + b) + c
  {
  }

  lemma AppendRegroup<T>(a: seq<T>, b: seq<T>, c: seq<T>, d: seq<T>)
    ensures a + (b + c + d) == (a + b + c) + d
  {
  }

  /** One step of `RunFrom`, for page `page`. */
  lemma RunFromStep(env: Environment, cfg: Config.Settings, namer: Namer, page: int)
    requires page >= 1
    ensures var o := RunFrom(env, cfg, namer, page);
      var r := ListAt(env, page);
      if r.ListError? then o == Outcome([List(page, cfg.pageSize, false)], Some(ListFailed(page, r.reason)))
      else if r.items == [] then o == Outcome([List(page, cfg.pageSize, true)], None)
      else
        var batch := ItemsRun(env, cfg.downloadPath, namer, r.items);
        page <= |env.listing|
        && (batch.error.Some? ==> o == Outcome([List(page, cfg.pageSize, true)] + batch.events, batch.error))
        && (batch.error.None? ==>
              o.events == [List(page, cfg.pageSize, true)] + batch.events + RunFrom(env, cfg, namer, page + 1).events
              && o.error == RunFrom(env, cfg, namer, page + 1).error)
  {
  }

  /** The whole of `DownloadAll`. */
  function Run(env: Environment, cfg: Config.Settings, namer: Namer): Outcome<ExportError> {
    RunFrom(env, cfg, namer, 1)
  }

  /** `New` up to the point where the downloader exists: validate, parse the
      server URL, log in, create the download root. */
  function Startup(s: Config.Settings, env: Environment): Outcome<ExportError> {
    match Config.Validated(s)
    case Failure(cause) => Outcome([], Some(InvalidConfig(cause)))
    case Success(cfg) =>
      if !ParsesURL(env, cfg.serverURL) then Outcome([], Some(ClientFailed(cfg.serverURL)))
      else if !AcceptsLogin(env, cfg.username, cfg.password) then
        Outcome([Login(cfg.username, false)], Some(LoginFailed(cfg.username)))
      else if !MkdirSucceeds(env, cfg.downloadPath) then
        Outcome([Login(cfg.username, true), Mkdir(cfg.downloadPath, false)], Some(RootDirFailed(cfg.downloadPath)))
      else Outcome([Login(cfg.username, true), Mkdir(cfg.downloadPath, true)], None)
  }

  /** The `Downloader` struct: the validated configuration, the client
      (here the oracle it talks to), the file manager, and the calls made
      so far. */
  class Downloader {
    const config: Config.Settings
    const env: Environment
    const fileManager: Namer
    var trace: seq<Event>

    constructor Init(config: Config.Settings, env: Environment, fileManager: Namer, trace: seq<Event>)
      ensures this.config == config && this.env == env && this.fileManager == fileManager && this.trace == trace
    {
      this.config := config;
      this.env := env;
      this.fileManager := fileManager;
      this.trace := trace;
    }

    /** `ItemsService.List(page, pageSize)`. */
    method ListPage(page: int, pageSize: int) returns (r: ListResponse)
      modifies this
      ensures r == ListAt(env, page)
      ensures trace == old(trace) + [List(page, pageSize, r.Listed?)]
    {
      r := ListAt(env, page);
      trace := trace + [List(page, pageSize, r.Listed?)];
    }

    /** `ItemsService.Get(id)`. */
    method GetItem(id: string) returns (r: Result<Item, string>)
      modifies this
      ensures r == Fetch(env, id)
      ensures trace == old(trace) + [Get(id, r.Success?)]
    {
      r := Fetch(env, id);
      trace := trace + [Get(id, r.Success?)];
    }

    /** `os.MkdirAll(path, 0755)`. */
    method MkdirAll(path: string) returns (ok: bool)
      modifies this
      ensures ok == MkdirSucceeds(env, path)
      ensures trace == old(trace) + [Mkdir(path, ok)]
    {
      ok := MkdirSucceeds(env, path);
      trace := trace + [Mkdir(path, ok)];
    }

    /** `ItemsService.DownloadAttachment(itemID, attachmentID, destPath)`. */
    method DownloadAttachment(itemId: string, attachmentId: string, path: string) returns (ok: bool)
      modifies this
      ensures ok == DownloadSucceeds(env, itemId, attachmentId, path)
      ensures trace == old(trace) + [Download(itemId, attachmentId, path, ok)]
    {
      ok := DownloadSucceeds(env, itemId, attachmentId, path);
      trace := trace + [Download(itemId, attachmentId, path, ok)];
    }

    /** The body of `processItem`'s loop for one attachment. */
    method ProcessAttachment(item: Item, attachment: Attachment) returns (err: Option<ItemError>)
      modifies this
      ensures var run := AttachmentRun(env, item.id, ItemDirectory(config.downloadPath, fileManager, item), attachment,
        TargetPath(config.downloadPath, fileManager, item, attachment));
        trace == old(trace) + run.events && err == run.error
    {
      var subdirectory := fileManager.directoryName(item);
      var dir := Join(config.downloadPath, subdirectory);
      var ok := MkdirAll(dir);
      if !ok {
        return Some(MkdirFailed(dir));
      }
      var filename := fileManager.fileName(item, attachment);
      var path := Join(Join(config.downloadPath, subdirectory), filename);
      ok := DownloadAttachment(item.id, attachment.id, path);
      if !ok {
        return Some(DownloadFailed(attachment.id));
      }
      return None;
    }

    /** `processItem`: the calls and the error are those of `ItemRun`. */
    method ProcessItem(item: Item) returns (err: Option<ItemError>)
      modifies this
      ensures trace == old(trace) + ItemRun(env, config.downloadPath, fileManager, item).events
      ensures err == ItemRun(env, config.downloadPath, fileManager, item).error
    {
      var atts := item.attachments;
      ghost var dir := ItemDirectory(config.downloadPath, fileManager, item);
      ghost var paths := Targets(config.downloadPath, fileManager, item, atts);
      var k := 0;
      while k < |atts|
        invariant 0 <= k <= |atts|
        invariant old(trace) + ItemRun(env, config.downloadPath, fileManager, item).events
          == trace + AttachmentsRun(env, item.id, dir, atts[k..], paths[k..]).events
        invariant ItemRun(env, config.downloadPath, fileManager, item).error
          == AttachmentsRun(env, item.id, dir, atts[k..], paths[k..]).error
        decreases |atts| - k
      {
        ghost var before := trace;
        assert atts[k..][0] == atts[k] && atts[k..][1..] == atts[k + 1..];
        assert paths[k..][0] == paths[k] && paths[k..][1..] == paths[k + 1..];
        err := ProcessAttachment(item, atts[k]);
        ghost var first := AttachmentRun(env, item.id, dir, atts[k], paths[k]);
        if err.Some? {
          assert trace == before + AttachmentsRun(env, item.id, dir, atts[k..], paths[k..]).events;
          return err;
        }
        ghost var later := AttachmentsRun(env, item.id, dir, atts[k + 1..], paths[k + 1..]).events;
        assert AttachmentsRun(env, item.id, dir, atts[k..], paths[k..]).events == first.events + later;
        AppendAssoc(before, first.events, later);
        k := k + 1;
      }
      assert atts[k..] == [];
      return None;
    }

    /** `processItems`: the calls and the error are those of `ItemsRun`. */
    method ProcessItems(items: seq<Item>) returns (err: Option<ExportError>)
      modifies this
      ensures trace == old(trace) + ItemsRun(env, config.downloadPath, fileManager, items).events
      ensures err == ItemsRun(env, config.downloadPath, fileManager, items).error
    {
      var i := 0;
      while i < |items|
        invariant 0 <= i <= |items|
        invariant old(trace) + ItemsRun(env, config.downloadPath, fileManager, items).events
          == trace + ItemsRun(env, config.downloadPath, fileManager, items[i..]).events
        invariant ItemsRun(env, config.downloadPath, fileManager, items).error
          == ItemsRun(env, config.downloadPath, fileManager, items[i..]).error
        decreases |items| - i
      {
        ghost var before := trace;
        assert items[i..][1..] == items[i + 1..];
        ItemsRunStep(env, config.downloadPath, fileManager, items[i..]);
        var fullItem := GetItem(items[i].id);
        if fullItem.Failure? {
          assert trace == before + ItemsRun(env, config.downloadPath, fileManager, items[i..]).events;
          return Some(GetFailed(items[i].id, fullItem.error));
        }
        // A failed item is logged and skipped.
        ghost var fetched := trace;
        var itemErr := ProcessItem(fullItem.value);
        ghost var itemEvents := ItemRun(env, config.downloadPath, fileManager, fullItem.value).events;
        ghost var later := ItemsRun(env, config.downloadPath, fileManager, items[i + 1..]).events;
        assert ItemsRun(env, config.downloadPath, fileManager, items[i..]).events == [Get(items[i].id, true)] + itemEvents + later;
        assert trace == before + [Get(items[i].id, true)] + itemEvents;
        AppendRegroup(before, [Get(items[i].id, true)], itemEvents, later);
        i := i + 1;
      }
      assert items[i..] == [];
      return None;
    }

    /** `DownloadAll`: the calls and the error are those of `Run`. */
    method DownloadAll() returns (err: Option<ExportError>)
      modifies this
      ensures trace == old(trace) + Run(env, config, fileManager).events
      ensures err == Run(env, config, fileManager).error
    {
      var page := 1;
      while true
        invariant page >= 1
        invariant old(trace) + Run(env, config, fileManager).events == trace + RunFrom(env, config, fileManager, page).events
        invariant Run(env, config, fileManager).error == RunFrom(env, config, fileManager, page).error
        decreases |env.listing| + 1 - page
      {
        ghost var before := trace;
        RunFromStep(env, config, fileManager, page);
        var items := ListPage(page, config.pageSize);
        if items.ListError? {
          assert trace == before + RunFrom(env, config, fileManager, page).events;
          return Some(ListFailed(page, items.reason));
        }
        if |items.items| == 0 {
          assert trace == before + RunFrom(env, config, fileManager, page).events;
          break;
        }
        err := ProcessItems(items.items);
        if err.Some? {
          assert trace == before + RunFrom(env, config, fileManager, page).events;
          return err;
        }
        AppendRegroup(before, [List(page, config.pageSize, true)], ItemsRun(env, config.downloadPath, fileManager, items.items).events,
          RunFrom(env, config, fileManager, page + 1).events);
        page := page + 1;
      }
      return None;
    }
  }

  /** `New`: the calls and the error are those of `Startup`; on success the
      downloader holds the validated configuration and no download has
      happened yet. */
  method New(settings: Config.Settings, env: Environment) returns (d: Downloader?, err: Option<ExportError>, events: seq<Event>)
    ensures events == Startup(settings, env).events && err == Startup(settings, env).error
    ensures d == null <==> err.Some?
    ensures d != null ==>
      && fresh(d) && Config.Validated(settings).Success?
      && d.config == Config.Validated(settings).value && d.env == env && d.fileManager == FileManagerNamer
      && d.trace == events
  {
    var config := new Config.Config(settings);
    var invalid := config.Validate();
    if invalid.Some? {
      return null, Some(InvalidConfig(invalid.value)), [];
    }
    var cfg := config.Values();
    if !ParsesURL(env, cfg.serverURL) {
      return null, Some(ClientFailed(cfg.serverURL)), [];
    }
    var loggedIn := AcceptsLogin(env, cfg.username, cfg.password);
    events := [Login(cfg.username, loggedIn)];
    if !loggedIn {
      return null, Some(LoginFailed(cfg.username)), events;
    }
    var made := MkdirSucceeds(env, cfg.downloadPath);
    events := events + [Mkdir(cfg.downloadPath, made)];
    if !made {
      return null, Some(RootDirFailed(cfg.downloadPath)), events;
    }
    d := new Downloader.Init(cfg, env, FileManagerNamer, events);
    err := None;
  }
}
