/** Configuration validation of internal/config/config.go: `Validate`
    checks the four required fields in a fixed order and, only when all are
    present, replaces a zero page size with the default, in place. */
module Config {
  import opened Wrappers

  /** The page size used when none is given. */
  const DefaultPageSize: int := 100

  /** The values a `Config` holds. `PageSize` is a Go `int`; nothing here
      does arithmetic on it, so it is an unbounded `int`. */
  datatype Settings = Settings(
    serverURL: string,
    username: string,
    password: string,
    downloadPath: string,
    pageSize: int)

  /** The four errors `Validate` can return, one per required field. */
  datatype ConfigError = MissingServerURL | MissingUsername | MissingPassword | MissingDownloadPath
  {
    /** The text of the Go error. */
    function Message(): string {
      match this
      case MissingServerURL => "server URL is required"
      case MissingUsername => "username is required"
      case MissingPassword => "password is required"
      case MissingDownloadPath => "download path is required"
    }
  }

  /** The required fields, in the order `Validate` checks them. */
  function RequiredFields(s: Settings): seq<string> {
    [s.serverURL, s.username, s.password, s.downloadPath]
  }

  /** The error for each required field, in the same order. */
  const FieldErrors: seq<ConfigError> := [MissingServerURL, MissingUsername, MissingPassword, MissingDownloadPath]

  predicate AllPresent(s: Settings) {
    s.serverURL != "" && s.username != "" && s.password != "" && s.downloadPath != ""
  }

  /** What `Validate` decides, on values: the error of the first empty
      required field, or the settings with a zero page size defaulted.
      Validation succeeds exactly when every required field is present, and
      a success changes at most the page size. */
  function Validated(s: Settings): (r: Result<Settings, ConfigError>)
    ensures r.Success? <==> AllPresent(s)
    ensures r.Success? ==> r.value.pageSize != 0 && r.value == s.(pageSize := r.value.pageSize)
  {
    if s.serverURL == "" then Failure(MissingServerURL)
    else if s.username == "" then Failure(MissingUsername)
    else if s.password == "" then Failure(MissingPassword)
    else if s.downloadPath == "" then Failure(MissingDownloadPath)
    else if s.pageSize == 0 then Success(s.(pageSize := DefaultPageSize))
    else Success(s)
  }

  /** The error names the first empty field in the checking order: field `i`
      is reported exactly when it is empty and every earlier one is present. */
  lemma FirstMissingFieldDecides(s: Settings, i: nat)
    requires i < |FieldErrors|
    ensures Validated(s) == Failure(FieldErrors[i]) <==>
      RequiredFields(s)[i] == "" && forall j :: 0 <= j < i ==> RequiredFields(s)[j] != ""
  {
    var f := RequiredFields(s);
    assert f[0] == s.serverURL && f[1] == s.username && f[2] == s.password && f[3] == s.downloadPath;
  }

  /** On success a zero page size becomes 100 and any other page size, a
      negative one included, is kept. */
  lemma PageSizeDefault(s: Settings)
    requires AllPresent(s)
    ensures Validated(s).Success?
    ensures Validated(s).value.pageSize == if s.pageSize == 0 then DefaultPageSize else s.pageSize
  {
  }

  /** Validating validated settings succeeds again and changes nothing. */
  lemma ValidateIdempotent(s: Settings)
    requires Validated(s).Success?
    ensures Validated(Validated(s).value) == Validated(s)
  {
  }

  /** The message identifies the field: no two errors share a text. */
  lemma MessagesDistinct(a: ConfigError, b: ConfigError)
    ensures a.Message() == b.Message() <==> a == b
  {
  }

  /** `Config`, whose `Validate` has a pointer receiver and writes
      `PageSize` in place. */
  class Config {
    var serverURL: string
    var username: string
    var password: string
    var downloadPath: string
    var pageSize: int

    /** The current field values. */
    function Values(): Settings
      reads this
    {
      Settings(serverURL, username, password, downloadPath, pageSize)
    }

    /** A `Config` literal. */
    constructor (s: Settings)
      ensures Values() == s
    {
      serverURL := s.serverURL;
      username := s.username;
      password := s.password;
      downloadPath := s.downloadPath;
      pageSize := s.pageSize;
    }

    /** `Validate`: returns the decision of `Validated`; on an error no field
        changes, on success only the page size may, and the four required
        fields never change. */
    method Validate() returns (err: Option<ConfigError>)
      modifies this
      ensures Validated(old(Values())).Failure? ==> err == Some(Validated(old(Values())).error) && Values() == old(Values())
      ensures Validated(old(Values())).Success? ==> err == None && Values() == Validated(old(Values())).value
      ensures serverURL == old(serverURL) && username == old(username)
      ensures password == old(password) && downloadPath == old(downloadPath)
    {
      if serverURL == "" {
        return Some(MissingServerURL);
      }
      if username == "" {
        return Some(MissingUsername);
      }
      if password == "" {
        return Some(MissingPassword);
      }
      if downloadPath == "" {
        return Some(MissingDownloadPath);
      }
      if pageSize == 0 {
        pageSize := DefaultPageSize;
      }
      return None;
    }
  }

  /** Calling `Validate` a second time after a successful call returns nil
      and leaves the configuration as the first call left it. */
  method ValidateTwice(c: Config) returns (first: Option<ConfigError>, second: Option<ConfigError>)
    modifies c
    ensures first == None ==> Validated(old(c.Values())).Success? && second == None && c.Values() == Validated(old(c.Values())).value
  {
    first := c.Validate();
    ghost var after := c.Values();
    second := c.Validate();
    if first == None {
      ValidateIdempotent(old(c.Values()));
      assert c.Values() == after;
    }
  }
}
