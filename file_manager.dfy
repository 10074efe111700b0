/** The path namer of internal/filemanager/file_manager.go: pure string
    functions that turn untrusted server strings (item names, item IDs,
    attachment titles and IDs) into the directory and file names of the
    export tree. Go strings are byte strings; here a string is a sequence
    of characters and Go's `len` and slicing become `|s|` and `s[..n]`. */
module FileManager {
  import opened Models

  /** The characters `sanitizeFilename` replaces, in the order it replaces them. */
  const InvalidChars: seq<char> := ['/', '\\', ':', '*', '?', '"', '<', '>', '|']
  /** What each invalid character is replaced with. */
  const Replacement: char := '_'
  /** The longest sanitized name, counted after replacement and trimming. */
  const MaxNameLength: nat := 50
  /** The extension used when a title has none. */
  const DefaultExtension: string := ".bin"
  /** The path separator `filepath.Ext` stops at (Unix). */
  const Separator: char := '/'

  // ---------------------------------------------------------------------
  // Character classes and small string predicates
  // ---------------------------------------------------------------------

  /** The white space `strings.TrimSpace` removes, restricted to ASCII:
      space, tab, line feed, vertical tab, form feed and carriage return. */
  predicate IsSpace(c: char) {
    c == ' ' || c == '\t' || c == '\n' || c == '\U{B}' || c == '\U{C}' || c == '\r'
  }

  predicate AllSpace(s: string) {
    forall i :: 0 <= i < |s| ==> IsSpace(s[i])
  }

  predicate NoInvalidChars(s: string) {
    forall i :: 0 <= i < |s| ==> s[i] !in InvalidChars
  }

  /** `strings.HasSuffix(s, suffix)`. */
  predicate IsSuffix(suffix: string, s: string) {
    |suffix| <= |s| && s[|s| - |suffix|..] == suffix
  }

  // ---------------------------------------------------------------------
  // The library calls sanitizeFilename is built from
  // ---------------------------------------------------------------------

  /** `strings.ReplaceAll(s, string(c), string(with))` for a one-character pattern. */
  function ReplaceAll(s: string, c: char, with: char): (r: string)
    ensures |r| == |s|
    ensures forall i :: 0 <= i < |s| ==> r[i] == if s[i] == c then with else s[i]
  {
    if s == [] then []
    else [if s[0] == c then with else s[0]] + ReplaceAll(s[1..], c, with)
  }

  /** Drops the leading white space. */
  function TrimLeft(s: string): string {
    if s != [] && IsSpace(s[0]) then TrimLeft(s[1..]) else s
  }

  /** What `TrimLeft` drops is white space, and it stops at the first
      character that is not. */
  lemma {:induction false} TrimLeftShape(s: string)
    ensures var r := TrimLeft(s);
      && |r| <= |s| && r == s[|s| - |r|..]
      && AllSpace(s[..|s| - |r|])
      && (r == [] || !IsSpace(r[0]))
  {
    if s != [] && IsSpace(s[0]) {
      TrimLeftShape(s[1..]);
      var r := TrimLeft(s);
      assert s[..|s| - |r|] == [s[0]] + s[1..][..|s| - 1 - |r|];
    }
  }

  /** Drops the trailing white space. */
  function TrimRight(s: string): string {
    if s != [] && IsSpace(s[|s| - 1]) then TrimRight(s[..|s| - 1]) else s
  }

  /** What `TrimRight` drops is white space, and it stops at the last
      character that is not. */
  lemma {:induction false} TrimRightShape(s: string)
    ensures var r := TrimRight(s);
      && |r| <= |s| && r == s[..|r|]
      && AllSpace(s[|r|..])
      && (r == [] || !IsSpace(r[|r| - 1]))
  {
    if s != [] && IsSpace(s[|s| - 1]) {
      var front := s[..|s| - 1];
      TrimRightShape(front);
      var r := TrimRight(s);
      assert s[|r|..] == front[|r|..] + [s[|s| - 1]];
    }
  }

  /** `strings.TrimSpace`. */
  function TrimSpace(s: string): string {
    TrimRight(TrimLeft(s))
  }

  /** The result of `TrimSpace` is the part of `s` left after removing white
      space at both ends, and it neither starts nor ends with white space. */
  lemma TrimSpaceWindow(s: string)
    ensures var r := TrimSpace(s);
      && |r| <= |s|
      && Trimmed(r, s)
      && (r == [] || (!IsSpace(r[0]) && !IsSpace(r[|r| - 1])))
  {
    var l := TrimLeft(s);
    TrimLeftShape(s);
    TrimRightShape(l);
    PeeledBothEnds(s, l, TrimRight(l));
  }

  /** Dropping white space in front and then at the back leaves a piece of
      `s` with only white space around it. */
  lemma PeeledBothEnds(s: string, l: string, r: string)
    requires |l| <= |s| && l == s[|s| - |l|..] && AllSpace(s[..|s| - |l|])
    requires |r| <= |l| && r == l[..|r|] && AllSpace(l[|r|..])
    ensures Trimmed(r, s)
  {
    var i := |s| - |l|;
    assert r == s[i..i + |r|];
    assert s[i + |r|..] == l[|r|..];
  }

  /** `t` is a piece of `s` with only white space around it. */
  predicate Trimmed(t: string, s: string) {
    exists i :: 0 <= i <= |s| - |t| && t == s[i..i + |t|] && AllSpace(s[..i]) && AllSpace(s[i + |t|..])
  }

  /** `if len(s) > n { s = s[:n] }`: the longest prefix of `s` of length at most `n`. */
  function Truncate(s: string, n: nat): (r: string)
    ensures |r| == if |s| <= n then |s| else n
    ensures r == s[..|r|]
  {
    if |s| > n then s[..n] else s
  }

  // ---------------------------------------------------------------------
  // sanitizeFilename
  // ---------------------------------------------------------------------

  /** The combined effect of the replacement loop: every invalid character
      becomes one `_`, every other character stays where it is. */
  function ReplaceInvalid(s: string): string {
    seq(|s|, i requires 0 <= i < |s| => if s[i] in InvalidChars then Replacement else s[i])
  }

  /** What `sanitizeFilename` returns: replace, then trim, then truncate to 50. */
  function Sanitize(filename: string): string {
    Truncate(TrimSpace(ReplaceInvalid(filename)), MaxNameLength)
  }

  /** The sanitized name is safe as one path component name: at most 50
      characters and free of the invalid characters. */
  lemma SanitizeSafe(filename: string)
    ensures |Sanitize(filename)| <= MaxNameLength
    ensures NoInvalidChars(Sanitize(filename))
  {
    SanitizeIsWindow(filename);
    WindowSafe(Sanitize(filename), ReplaceInvalid(filename));
  }

  /** A piece of a name without invalid characters has none either. */
  lemma WindowSafe(r: string, rep: string)
    requires TrimmedWindow(r, rep)
    requires NoInvalidChars(rep)
    ensures NoInvalidChars(r)
  {
    var o :| 0 <= o <= |rep| - |r| && r == rep[o..o + |r|] && AllSpace(rep[..o])
      && (|r| < MaxNameLength ==> AllSpace(rep[o + |r|..]));
    assert forall i :: 0 <= i < |r| ==> r[i] == rep[o + i];
  }

  /** `sanitizeFilename` as the source writes it: one `strings.ReplaceAll`
      per invalid character, then `strings.TrimSpace`, then the cut to 50. */
  method SanitizeFilename(filename: string) returns (result: string)
    ensures result == Sanitize(filename)
  {
    result := filename;
    for k := 0 to |InvalidChars|
      invariant |result| == |filename|
      invariant forall i :: 0 <= i < |filename| ==>
        result[i] == if filename[i] in InvalidChars[..k] then Replacement else filename[i]
    {
      result := ReplaceAll(result, InvalidChars[k], Replacement);
    }
    assert InvalidChars[..|InvalidChars|] == InvalidChars;
    assert result == ReplaceInvalid(filename);
    result := TrimSpace(result);
    if |result| > MaxNameLength {
      result := result[..MaxNameLength];
    }
  }

  /** A name needs no sanitizing: no invalid character, no white space at
      either end, at most 50 characters. */
  predicate IsCleanName(s: string) {
    NoInvalidChars(s) && |s| <= MaxNameLength && (s == [] || (!IsSpace(s[0]) && !IsSpace(s[|s| - 1])))
  }

  lemma NoEdgeSpaceTrimmed(s: string)
    requires s == [] || (!IsSpace(s[0]) && !IsSpace(s[|s| - 1]))
    ensures TrimSpace(s) == s
  {
    assert TrimLeft(s) == s;
  }

  /** The sanitized name is a window of the replaced name: what is cut off in
      front is white space, and when nothing was truncated what is cut off at
      the back is white space too. */
  lemma SanitizeIsWindow(s: string)
    ensures TrimmedWindow(Sanitize(s), ReplaceInvalid(s))
  {
    TrimTruncateWindow(ReplaceInvalid(s));
  }

  /** `r` is a piece of `rep` preceded only by white space, and followed
      only by white space unless `r` has the full 50 characters. */
  predicate TrimmedWindow(r: string, rep: string) {
    exists o ::
      && 0 <= o <= |rep| - |r|
      && r == rep[o..o + |r|]
      && AllSpace(rep[..o])
      && (|r| < MaxNameLength ==> AllSpace(rep[o + |r|..]))
  }

  /** Trimming and then truncating leaves a window of the input. */
  lemma TrimTruncateWindow(rep: string)
    ensures TrimmedWindow(Truncate(TrimSpace(rep), MaxNameLength), rep)
  {
    TrimSpaceWindow(rep);
    TruncateTrimmed(TrimSpace(rep), rep);
  }

  lemma TruncateTrimmed(t: string, rep: string)
    requires Trimmed(t, rep)
    ensures TrimmedWindow(Truncate(t, MaxNameLength), rep)
  {
    var o :| 0 <= o <= |rep| - |t| && t == rep[o..o + |t|] && AllSpace(rep[..o]) && AllSpace(rep[o + |t|..]);
    TruncatedWindow(rep, t, o);
    var r := Truncate(t, MaxNameLength);
    assert 0 <= o <= |rep| - |r| && r == rep[o..o + |r|] && AllSpace(rep[..o])
      && (|r| < MaxNameLength ==> AllSpace(rep[o + |r|..]));
  }

  /** Cutting a window of `rep` to 50 characters leaves a window that starts
      at the same place. */
  lemma TruncatedWindow(rep: string, t: string, o: int)
    requires 0 <= o <= |rep| - |t| && t == rep[o..o + |t|] && AllSpace(rep[o + |t|..])
    ensures var r := Truncate(t, MaxNameLength);
      && 0 <= o <= |rep| - |r| && r == rep[o..o + |r|]
      && (|r| < MaxNameLength ==> AllSpace(rep[o + |r|..]))
  {
    var r := Truncate(t, MaxNameLength);
    assert r == t[..|r|];
    if |r| < MaxNameLength {
      assert |r| == |t|;
    }
  }

  /** Sanitizing changes a name exactly when the name is not already clean. */
  lemma {:induction false} SanitizeFixedPoint(s: string)
    ensures Sanitize(s) == s <==> IsCleanName(s)
  {
    if IsCleanName(s) {
      assert ReplaceInvalid(s) == s;
      NoEdgeSpaceTrimmed(s);
    }
    if Sanitize(s) == s {
      SanitizeSafe(s);
      TrimSpaceWindow(ReplaceInvalid(s));
      var t := TrimSpace(ReplaceInvalid(s));
      if |t| <= MaxNameLength {
        assert Sanitize(s) == t;
      }
    }
  }

  /** A name free of invalid characters passes the replacement unchanged. */
  lemma ReplaceInvalidIdentity(s: string)
    requires NoInvalidChars(s)
    ensures ReplaceInvalid(s) == s
  {
  }

  /** Trimming happens before truncation: when the cut at 50 characters
      lands after white space, the name ends in white space, and sanitizing
      it once more changes it again. */
  lemma SanitizeCutMayEndInSpace(s: string)
    requires |TrimSpace(ReplaceInvalid(s))| > MaxNameLength
    requires IsSpace(TrimSpace(ReplaceInvalid(s))[MaxNameLength - 1])
    ensures IsSpace(Sanitize(s)[MaxNameLength - 1])
    ensures Sanitize(Sanitize(s)) != Sanitize(s)
  {
    SanitizeFixedPoint(Sanitize(s));
  }

  // ---------------------------------------------------------------------
  // GenerateDirectory
  // ---------------------------------------------------------------------

  /** `strings.Split(id, "-")[0]`: the identifier up to its first dash. */
  function ShortId(id: string): (r: string)
    ensures |r| <= |id| && r == id[..|r|]
    ensures '-' !in r
    ensures |r| < |id| ==> id[|r|] == '-'
  {
    if id == [] || id[0] == '-' then [] else [id[0]] + ShortId(id[1..])
  }

  /** The three facts ShortId promises single it out: any dash-free prefix
      that ends at a dash or at the end of the identifier is ShortId. */
  lemma {:induction false} ShortIdUnique(id: string, p: string)
    requires |p| <= |id| && p == id[..|p|] && '-' !in p
    requires |p| < |id| ==> id[|p|] == '-'
    ensures p == ShortId(id)
  {
  }

  /** The whole identifier when it has no dash, nothing when it starts with one. */
  lemma ShortIdCases(id: string)
    ensures '-' !in id ==> ShortId(id) == id
    ensures |id| > 0 && id[0] == '-' ==> ShortId(id) == []
  {
  }

  /** `GenerateDirectory`: the sanitized name, `_`, and the identifier's
      first segment. */
  function GenerateDirectory(item: Item): string {
    Sanitize(item.name) + [Replacement] + ShortId(item.id)
  }

  /** The directory name ends in `_<short id>`, and the name part before it
      is at most 50 characters and free of invalid characters. */
  lemma GenerateDirectoryShape(item: Item)
    ensures var r := GenerateDirectory(item);
      var sid := ShortId(item.id);
      && |sid| < |r|
      && r[|r| - |sid| - 1..] == [Replacement] + sid
      && |r| - |sid| - 1 <= MaxNameLength
      && NoInvalidChars(r[..|r| - |sid| - 1])
      && r[..|r| - |sid| - 1] == Sanitize(item.name)
  {
    var name := Sanitize(item.name);
    var sid := ShortId(item.id);
    var r := GenerateDirectory(item);
    SanitizeSafe(item.name);
    assert |r| - |sid| - 1 == |name|;
    assert r[|name|..] == [Replacement] + sid;
    assert r[..|name|] == name;
  }

  /** The directory name is free of invalid characters exactly when the
      identifier's first segment is: the identifier itself is not sanitized. */
  lemma DirectoryNameSafeIff(item: Item)
    ensures NoInvalidChars(GenerateDirectory(item)) <==> NoInvalidChars(ShortId(item.id))
  {
    var d := GenerateDirectory(item);
    var sid := ShortId(item.id);
    GenerateDirectoryShape(item);
    assert d[|d| - |sid|..] == sid;
    if NoInvalidChars(sid) {
      forall i | 0 <= i < |d| ensures d[i] !in InvalidChars {
        if i >= |d| - |sid| {
          assert d[i] == sid[i - (|d| - |sid|)];
        } else if i < |d| - |sid| - 1 {
          assert d[i] == d[..|d| - |sid| - 1][i];
        }
      }
    }
    if NoInvalidChars(d) {
      forall j | 0 <= j < |sid| ensures sid[j] !in InvalidChars {
        assert sid[j] == d[|d| - |sid| + j];
      }
    }
  }

  /** Two items whose names sanitize alike get the same directory exactly
      when their identifiers share the first segment. */
  lemma DirectoryNamesSeparateIds(a: Item, b: Item)
    requires Sanitize(a.name) == Sanitize(b.name)
    ensures GenerateDirectory(a) == GenerateDirectory(b) <==> ShortId(a.id) == ShortId(b.id)
  {
    var n := Sanitize(a.name);
    if GenerateDirectory(a) == GenerateDirectory(b) {
      assert GenerateDirectory(a)[|n| + 1..] == ShortId(a.id);
      assert GenerateDirectory(b)[|n| + 1..] == ShortId(b.id);
    }
  }

  /** Replacing first changes nothing: `_` is not an invalid character. */
  lemma SanitizeAfterReplace(s: string)
    ensures Sanitize(ReplaceInvalid(s)) == Sanitize(s)
  {
    assert ReplaceInvalid(ReplaceInvalid(s)) == ReplaceInvalid(s);
  }

  lemma SanitizeExampleTestItem()
    ensures Sanitize("Test Item") == "Test Item"
  {
    assert IsCleanName("Test Item");
    SanitizeFixedPoint("Test Item");
  }

  lemma SanitizeExampleSpecialChars()
    ensures Sanitize("Item/With:Special*Chars?") == "Item_With_Special_Chars_"
  {
    ReplaceExampleSpecialChars();
    SanitizeAfterReplace("Item/With:Special*Chars?");
    CleanExampleReplaced();
    SanitizeFixedPoint("Item_With_Special_Chars_");
  }

  lemma ReplaceExampleSpecialChars()
    ensures ReplaceInvalid("Item/With:Special*Chars?") == "Item_With_Special_Chars_"
  {
  }

  lemma CleanExampleReplaced()
    ensures IsCleanName("Item_With_Special_Chars_")
  {
  }

  lemma ShortIdExampleAbc()
    ensures ShortId("abc123-456def") == "abc123"
  {
    ShortIdUnique("abc123-456def", "abc123");
  }

  lemma ShortIdExampleXyz()
    ensures ShortId("xyz789-456def") == "xyz789"
  {
    ShortIdUnique("xyz789-456def", "xyz789");
  }

  // The two directory names of file_manager_test.go. Each is split into
  // small steps: the parts of the name, their values, and the joined value.

  lemma ExampleSimpleParts()
    ensures GenerateDirectory(Item("abc123-456def", "Test Item", [])) == Sanitize("Test Item") + [Replacement] + ShortId("abc123-456def")
  {
  }

  lemma ExampleSimpleJoin(name: string, sid: string)
    requires name == "Test Item" && sid == "abc123"
    ensures name + [Replacement] + sid == "Test Item_abc123"
  {
  }

  lemma GenerateDirectoryExampleSimple()
    ensures GenerateDirectory(Item("abc123-456def", "Test Item", [])) == "Test Item_abc123"
  {
    ExampleSimpleParts();
    SanitizeExampleTestItem();
    ShortIdExampleAbc();
    ExampleSimpleJoin(Sanitize("Test Item"), ShortId("abc123-456def"));
  }

  lemma ExampleSpecialParts()
    ensures GenerateDirectory(Item("xyz789-456def", "Item/With:Special*Chars?", [])) ==
      Sanitize("Item/With:Special*Chars?") + [Replacement] + ShortId("xyz789-456def")
  {
  }

  lemma ExampleSpecialJoin(name: string, sid: string)
    requires name == "Item_With_Special_Chars_" && sid == "xyz789"
    ensures name + [Replacement] + sid == "Item_With_Special_Chars__xyz789"
  {
  }

  /** Each special character becomes its own `_`, so the trailing `?`
      and the separator give two underscores in a row. */
  lemma GenerateDirectoryExampleSpecial()
    ensures GenerateDirectory(Item("xyz789-456def", "Item/With:Special*Chars?", [])) == "Item_With_Special_Chars__xyz789"
  {
    ExampleSpecialParts();
    SanitizeExampleSpecialChars();
    ShortIdExampleXyz();
    ExampleSpecialJoin(Sanitize("Item/With:Special*Chars?"), ShortId("xyz789-456def"));
  }

  // ---------------------------------------------------------------------
  // getFileExtension and GenerateFilename
  // ---------------------------------------------------------------------

  /** `filepath.Ext`: the suffix starting at the last `.` of the last path
      component, or empty when that component has no `.`. */
  function Ext(path: string): string {
    if path == [] || path[|path| - 1] == Separator then []
    else if path[|path| - 1] == '.' then [path[|path| - 1]]
    else
      var e := Ext(path[..|path| - 1]);
      if e == [] then [] else e + [path[|path| - 1]]
  }

  /** The extension is a suffix of the path that starts with its only `.`
      and holds no separator; it is empty only when every `.` of the path
      lies before a separator. */
  lemma {:induction false} ExtShape(path: string)
    ensures var r := Ext(path);
      && |r| <= |path| && r == path[|path| - |r|..]
      && (r != [] ==> r[0] == '.' && forall i :: 1 <= i < |r| ==> r[i] != '.' && r[i] != Separator)
      && (r == [] ==> forall i :: 0 <= i < |path| && path[i] == '.' ==>
            exists j :: i < j < |path| && path[j] == Separator)
  {
    if path != [] && path[|path| - 1] != Separator && path[|path| - 1] != '.' {
      var front := path[..|path| - 1];
      ExtShape(front);
      var e := Ext(front);
      var r := Ext(path);
      if e != [] {
        assert r == e + [path[|path| - 1]];
        assert path[|path| - |r|..] == front[|front| - |e|..] + [path[|path| - 1]];
      } else {
        forall i | 0 <= i < |path| && path[i] == '.'
          ensures exists j :: i < j < |path| && path[j] == Separator
        {
          assert i < |front| && front[i] == '.';
          var j :| i < j < |front| && front[j] == Separator;
          assert path[j] == Separator;
        }
      }
    }
  }

  /** `getFileExtension`. */
  function FileExtension(title: string): string {
    var ext := Ext(title);
    if ext == [] then DefaultExtension else ext
  }

  /** The extension is never empty and always starts with `.`; it is either
      the title's own extension or `.bin` when the title has none. */
  lemma FileExtensionShape(title: string)
    ensures var r := FileExtension(title);
      && |r| > 0 && r[0] == '.'
      && (Ext(title) != [] ==> r == Ext(title) && IsSuffix(r, title))
      && (Ext(title) == [] ==> r == DefaultExtension)
  {
    ExtShape(title);
  }

  /** `strings.TrimSuffix`. */
  function TrimSuffix(s: string, suffix: string): (r: string)
    ensures IsSuffix(suffix, s) ==> r + suffix == s
    ensures !IsSuffix(suffix, s) ==> r == s
  {
    if IsSuffix(suffix, s) then s[..|s| - |suffix|] else s
  }

  /** Some attachment of the item carries this identifier. */
  predicate HasAttachment(item: Item, id: string) {
    exists i :: 0 <= i < |item.attachments| && item.attachments[i].id == id
  }

  /** What `GenerateFilename` returns. */
  function FileNameFor(item: Item, attachment: Attachment): string {
    var title := attachment.document.title;
    var ext := FileExtension(title);
    var stem := TrimSuffix(title, ext);
    if HasAttachment(item, attachment.id) && stem != [] then stem + ext else attachment.id + ext
  }

  /** Whatever the branch, the file name ends with the attachment's
      extension, so it is never empty. */
  lemma FileNameEndsWithExtension(item: Item, attachment: Attachment)
    ensures IsSuffix(FileExtension(attachment.document.title), FileNameFor(item, attachment))
    ensures |FileNameFor(item, attachment)| > 0
  {
    FileExtensionShape(attachment.document.title);
  }

  /** `GenerateFilename` as the source writes it: a search of the item's
      attachments for the identifier, returning early with the title. */
  method GenerateFilename(item: Item, attachment: Attachment) returns (name: string)
    ensures name == FileNameFor(item, attachment)
  {
    var ext := FileExtension(attachment.document.title);
    var i := 0;
    while i < |item.attachments|
      invariant 0 <= i <= |item.attachments|
      invariant forall j :: 0 <= j < i ==> item.attachments[j].id != attachment.id
    {
      if item.attachments[i].id == attachment.id {
        var title := TrimSuffix(attachment.document.title, ext);
        if title != [] {
          return title + ext;
        }
        break;
      }
      i := i + 1;
    }
    return attachment.id + ext;
  }

  /** A title without an extension never ends in `.bin`, so removing the
      default extension leaves it untouched. */
  lemma DefaultExtensionNotStripped(title: string)
    requires Ext(title) == []
    ensures TrimSuffix(title, DefaultExtension) == title
  {
    if IsSuffix(DefaultExtension, title) {
      NoExtensionMeansNoDot(title, |title| - 4);
      assert false;
    }
  }

  /** Without an extension, every `.` of the path is followed by a separator. */
  lemma NoExtensionMeansNoDot(path: string, i: int)
    requires Ext(path) == [] && 0 <= i < |path|
    ensures path[i] == '.' ==> exists j :: i < j < |path| && path[j] == Separator
  {
    ExtShape(path);
  }

  /** The stem of a title (the title with its extension removed) is empty
      exactly when the title is empty or is nothing but its extension. */
  lemma {:induction false} EmptyStemIff(title: string)
    ensures TrimSuffix(title, FileExtension(title)) == [] <==> title == [] || title == Ext(title)
  {
    if Ext(title) == [] {
      DefaultExtensionNotStripped(title);
    }
  }

  /** When the attachment belongs to the item and its title has a non-empty
      stem, the file is named by the title verbatim (unsanitized), with `.bin`
      added only when the title has no extension. */
  lemma {:induction false} FileNameFromTitle(item: Item, attachment: Attachment)
    requires HasAttachment(item, attachment.id)
    requires TrimSuffix(attachment.document.title, FileExtension(attachment.document.title)) != []
    ensures var title := attachment.document.title;
      FileNameFor(item, attachment) == if Ext(title) != [] then title else title + DefaultExtension
  {
    var title := attachment.document.title;
    ExtShape(title);
    if Ext(title) == [] {
      DefaultExtensionNotStripped(title);
    }
  }

  /** Otherwise the file is named by the attachment identifier and the
      extension. */
  lemma {:induction false} FileNameFromId(item: Item, attachment: Attachment)
    requires !HasAttachment(item, attachment.id) || attachment.document.title == []
      || attachment.document.title == Ext(attachment.document.title)
    ensures FileNameFor(item, attachment) == attachment.id + FileExtension(attachment.document.title)
  {
    EmptyStemIff(attachment.document.title);
  }

  /** The other direction of Ext: a `.` followed by a tail free of `.` and
      separators starts the extension. */
  lemma {:induction false} ExtOfSplit(stem: string, tail: string)
    requires '.' !in tail && Separator !in tail
    ensures Ext(stem + ['.'] + tail) == ['.'] + tail
  {
    var p := stem + ['.'] + tail;
    if tail != [] {
      var front := tail[..|tail| - 1];
      assert p[..|p| - 1] == stem + ['.'] + front;
      assert p[|p| - 1] == tail[|tail| - 1];
      ExtOfSplit(stem, front);
      assert ['.'] + front + [tail[|tail| - 1]] == ['.'] + tail;
    }
  }

  lemma ExtExamplePdf()
    ensures Ext("document.pdf") == ".pdf"
  {
    ExtOfSplit("document", "pdf");
    assert "document" + ['.'] + "pdf" == "document.pdf";
  }

  /** A path without a `.` has no extension. */
  lemma {:induction false} ExtNoDot(path: string)
    requires '.' !in path
    ensures Ext(path) == []
  {
    if path != [] && path[|path| - 1] != Separator {
      ExtNoDot(path[..|path| - 1]);
    }
  }

  lemma ExtExampleNone()
    ensures Ext("document") == []
  {
    ExtNoDot("document");
  }

  /** Unlike the item name, the title is not sanitized: a title with a
      separator names a file in a subdirectory of the item directory. */
  lemma TitleSeparatorKept(item: Item, a: Attachment)
    requires a == Attachment("att123", Document("sub/report.pdf")) && item == Item("123", "", [a])
    ensures FileNameFor(item, a) == "sub/report.pdf" && Separator in FileNameFor(item, a)
  {
    assert item.attachments[0].id == a.id;
    ExtOfSplit("sub/report", "pdf");
    assert "sub/report" + ['.'] + "pdf" == "sub/report.pdf";
    EmptyStemIff(a.document.title);
    FileNameFromTitle(item, a);
    assert "sub/report.pdf"[3] == Separator;
  }

  /** A title that climbs two directories up is kept verbatim as well. */
  lemma GenerateFilenameExampleClimb(item: Item, a: Attachment)
    requires a == Attachment("att123", Document("../../x.pdf")) && item.attachments == [a]
    ensures FileNameFor(item, a) == "../../x.pdf"
  {
    assert item.attachments[0].id == a.id;
    ExtOfSplit("../../x", "pdf");
    assert "../../x" + ['.'] + "pdf" == "../../x.pdf";
    EmptyStemIff(a.document.title);
    FileNameFromTitle(item, a);
  }

  lemma GenerateDirectoryExampleClimb(item: Item, a: Attachment)
    requires item == Item("abc123-456def", "Test Item", [a])
    ensures GenerateDirectory(item) == "Test Item_abc123"
  {
    SanitizeExampleTestItem();
    ShortIdExampleAbc();
    ExampleSimpleJoin(Sanitize(item.name), ShortId(item.id));
  }

  // The file names of file_manager_test.go, where the item's only
  // attachment is the one being named.

  lemma GenerateFilenameExampleTitle(item: Item, a: Attachment)
    requires a == Attachment("att123", Document("document.pdf")) && item == Item("123", "", [a])
    ensures FileNameFor(item, a) == "document.pdf"
  {
    assert item.attachments[0].id == a.id;
    ExtExamplePdf();
    EmptyStemIff(a.document.title);
    FileNameFromTitle(item, a);
  }

  lemma GenerateFilenameExampleNoExtension(item: Item, a: Attachment)
    requires a == Attachment("att123", Document("document")) && item == Item("123", "", [a])
    ensures FileNameFor(item, a) == "document.bin"
  {
    assert item.attachments[0].id == a.id;
    ExtExampleNone();
    EmptyStemIff(a.document.title);
    FileNameFromTitle(item, a);
  }

  lemma GenerateFilenameExampleEmptyTitle(item: Item, a: Attachment)
    requires a == Attachment("att123", Document("")) && item == Item("123", "", [a])
    ensures FileNameFor(item, a) == "att123.bin"
  {
    FileNameFromId(item, a);
  }

  /** A title that is only an extension has an empty stem: the file is
      named by the attachment identifier with that extension. */
  lemma GenerateFilenameExampleOnlyExtension(item: Item, a: Attachment)
    requires a == Attachment("att123", Document(".pdf")) && item == Item("123", "", [a])
    ensures FileNameFor(item, a) == "att123.pdf"
  {
    ExtOfSplit("", "pdf");
    assert [] + ['.'] + "pdf" == ".pdf";
    FileNameFromId(item, a);
    assert "att123" + ".pdf" == "att123.pdf";
  }
}
