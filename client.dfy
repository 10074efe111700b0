/** The collaborators of the export pipeline, as an oracle fixed for one
    run: what the Homebox server answers (homebox_client/client.go,
    auth.go, items.go) and which local file system operations fail.
    Network traffic, JSON decoding and the bytes of the files are not
    modelled; only the answers the downloader branches on are. */
module Client {
  import opened Wrappers
  import opened Models

  /** The answer to `ItemsService.List(page, pageSize)`. */
  datatype ListResponse = Listed(items: seq<Item>) | ListError(reason: string)

  /** One run's view of the server and the disk. */
  datatype Environment = Environment(
    /** Base URLs `url.Parse` rejects in `NewClient`. */
    unparsableURLs: set<string>,
    /** The (username, password) pairs `Login` accepts. */
    accounts: set<(string, string)>,
    /** `List(p, pageSize)` for p = 1, 2, ...: page p answers `listing[p - 1]`;
        every later page is empty. */
    listing: seq<ListResponse>,
    /** `Get(id)`; an identifier outside the map is an error. */
    details: map<string, Result<Item, string>>,
    /** Paths `os.MkdirAll` fails on. */
    failingDirs: set<string>,
    /** (item ID, attachment ID) pairs the attachment request fails for. */
    failingDownloads: set<(string, string)>,
    /** Destination paths `os.Create` fails on. */
    failingFiles: set<string>)

  /** The page a `List` call with this page number receives. */
  function ListAt(env: Environment, page: int): ListResponse {
    if 1 <= page <= |env.listing| then env.listing[page - 1] else Listed([])
  }

  /** The answer to `Get(id)`. */
  function Fetch(env: Environment, id: string): Result<Item, string> {
    if id in env.details then env.details[id] else Failure("not found")
  }

  predicate ParsesURL(env: Environment, url: string) {
    url !in env.unparsableURLs
  }

  predicate AcceptsLogin(env: Environment, username: string, password: string) {
    (username, password) in env.accounts
  }

  predicate MkdirSucceeds(env: Environment, path: string) {
    path !in env.failingDirs
  }

  /** `DownloadAttachment(itemID, attachmentID, destPath)` succeeds: the
      request answers 200 and the destination file can be created. */
  predicate DownloadSucceeds(env: Environment, itemId: string, attachmentId: string, path: string) {
    (itemId, attachmentId) !in env.failingDownloads && path !in env.failingFiles
  }
}
