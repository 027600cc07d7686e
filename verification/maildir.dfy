/**
 * maildir/main.go: the maildir flag letters, validating a maildir from its
 * directory listing, and the cached split of a message into its parts.
 */
module Maildir {
  import opened Wrappers
  import opened Mime

  /** Length of the blank prefix `NewDirectory` gives the folder list. */
  const ExpectedSubdirectories: nat := 5
  /** Number of nil placeholders `Attatchments` starts its list with. */
  const ExpectedMessageParts: nat := 5

  // ---- flags ----

  /** A maildir flag: a `uint8` with one bit per flag letter. */
  type Flag = bv8

  // `1 << iota`, the first iota value being discarded
  const Passed: Flag := 1 << 1
  const Replied: Flag := 1 << 2
  const Seen: Flag := 1 << 3
  const Trashed: Flag := 1 << 4
  const Draft: Flag := 1 << 5
  const Flagged: Flag := 1 << 6

  const FlagLetters: string := "PRSTDF"
  const Flags: seq<Flag> := [Passed, Replied, Seen, Trashed, Draft, Flagged]

  /** The flag of a flag letter of a maildir file name; 0 for any other character. */
  function ReadFlag(f: char): (flag: Flag)
    ensures flag != 0 <==> f in FlagLetters
  {
    match f
    case 'P' => Passed
    case 'R' => Replied
    case 'S' => Seen
    case 'T' => Trashed
    case 'D' => Draft
    case 'F' => Flagged
    case _ => 0
  }

  /** The letter of a flag, the inverse of `ReadFlag`. */
  function FlagLetter(flag: Flag): (c: Option<char>)
    ensures c.Some? <==> flag in Flags
  {
    if flag == Passed then Some('P')
    else if flag == Replied then Some('R')
    else if flag == Seen then Some('S')
    else if flag == Trashed then Some('T')
    else if flag == Draft then Some('D')
    else if flag == Flagged then Some('F')
    else None
  }

  /** The flags are the bits 2 through 64, each a single bit, no two sharing one. */
  lemma FlagsAreDistinctBits()
    ensures Passed == 2 && Replied == 4 && Seen == 8 && Trashed == 16 && Draft == 32 && Flagged == 64
    ensures forall f <- Flags :: f != 0 && f & (f - 1) == 0
    ensures forall i, j :: 0 <= i < j < |Flags| ==> Flags[i] & Flags[j] == 0
  {
  }

  /** Reading a letter and writing it back gives the letter, and the other way round. */
  lemma FlagLetterRoundTrip(c: char, flag: Flag)
    ensures c in FlagLetters ==> FlagLetter(ReadFlag(c)) == Some(c)
    ensures flag in Flags ==> ReadFlag(FlagLetter(flag).value) == flag
  {
  }

  // ---- directories ----

  /** One entry of a directory listing, as `ioutil.ReadDir` returns it. */
  datatype Entry = Entry(name: string, isDir: bool)

  /** `Directory`: the maildir's path, its message cache and its subfolders. */
  datatype Directory = Directory(path: string, messageList: Option<seq<string>>, dirList: seq<string>)

  /** `path.Join` and `path.Base`, left abstract. */
  type PathJoin = (string, string) -> string
  type PathBase = string -> string

  /** The three sub-directories every maildir has. */
  predicate Required(name: string)
  {
    name == "new" || name == "cur" || name == "tmp"
  }

  /** The listing has a directory named `name`. */
  predicate HasDir(infos: seq<Entry>, name: string)
  {
    exists i :: 0 <= i < |infos| && infos[i].isDir && infos[i].name == name
  }

  predicate IsMaildir(infos: seq<Entry>)
  {
    HasDir(infos, "new") && HasDir(infos, "cur") && HasDir(infos, "tmp")
  }

  /** The names of the listed directories other than new, cur and tmp, in listing order. */
  function OtherDirs(infos: seq<Entry>): (names: seq<string>)
    ensures |names| <= |infos|
    decreases |infos|
  {
    if infos == [] then []
    else
      var e := infos[|infos| - 1];
      OtherDirs(infos[..|infos| - 1]) + (if e.isDir && !Required(e.name) then [e.name] else [])
  }

  /** `OtherDirs` holds exactly the subdirectories that are not required, and nothing else. */
  lemma {:induction false} OtherDirsExact(infos: seq<Entry>, name: string)
    ensures name in OtherDirs(infos) <==> !Required(name) && HasDir(infos, name)
    decreases |infos|
  {
    if infos != [] {
      var n := |infos| - 1;
      OtherDirsExact(infos[..n], name);
      if HasDir(infos, name) {
        var i :| 0 <= i < |infos| && infos[i].isDir && infos[i].name == name;
        if i < n {
          assert infos[..n][i] == infos[i];
        }
      }
      if HasDir(infos[..n], name) {
        var i :| 0 <= i < n && infos[..n][i].isDir && infos[..n][i].name == name;
        assert infos[i] == infos[..n][i];
      }
    }
  }

  /** Files in the listing are ignored. */
  lemma FilesIgnored(infos: seq<Entry>, name: string)
    ensures OtherDirs(infos + [Entry(name, false)]) == OtherDirs(infos)
    ensures IsMaildir(infos + [Entry(name, false)]) <==> IsMaildir(infos)
  {
    assert (infos + [Entry(name, false)])[..|infos|] == infos;
    var ext := infos + [Entry(name, false)];
    forall d ensures HasDir(ext, d) <==> HasDir(infos, d) {
      if HasDir(ext, d) {
        var i :| 0 <= i < |ext| && ext[i].isDir && ext[i].name == d;
        assert i < |infos| && infos[i] == ext[i];
      }
      if HasDir(infos, d) {
        var i :| 0 <= i < |infos| && infos[i].isDir && infos[i].name == d;
        assert ext[i] == infos[i];
      }
    }
  }

  /** The folder list: five empty strings, then each other subdirectory joined onto the path. */
  function FolderList(path: string, infos: seq<Entry>, join: PathJoin): (list: seq<string>)
    ensures |list| == ExpectedSubdirectories + |OtherDirs(infos)|
    ensures forall i :: 0 <= i < ExpectedSubdirectories ==> list[i] == ""
    ensures forall i :: 0 <= i < |OtherDirs(infos)| ==> list[ExpectedSubdirectories + i] == join(path, OtherDirs(infos)[i])
  {
    seq(ExpectedSubdirectories, _ => "") + seq(|OtherDirs(infos)|, i requires 0 <= i < |OtherDirs(infos)| => join(path, OtherDirs(infos)[i]))
  }

  function NotMaildirError(path: string): string
  {
    "Folder " + path + " does not contain 'new', 'cur', and 'tmp'."
  }

  /** What `NewDirectory` returns for a listing. */
  function DirectoryFor(path: string, listing: Result<seq<Entry>>, join: PathJoin): (r: Result<Directory>)
    ensures listing.Err? ==> r == Err(listing.error)
    ensures listing.Ok? ==> (r.Ok? <==> IsMaildir(listing.value))
    ensures r.Ok? ==> r.value.path == path && r.value.messageList == None
    ensures listing.Ok? && r.Err? ==> r.error == NotMaildirError(path)
  {
    match listing
    case Err(e) => Err(e)
    case Ok(infos) =>
      if IsMaildir(infos) then Ok(Directory(path, None, FolderList(path, infos, join)))
      else Err(NotMaildirError(path))
  }

  /** `NewDirectory` over a listing of `path` (or the error reading it). */
  method NewDirectory(path: string, listing: Result<seq<Entry>>, join: PathJoin) returns (r: Result<Directory>)
    ensures r == DirectoryFor(path, listing, join)
  {
    if listing.Err? {
      return Err(listing.error);
    }
    var infos := listing.value;
    var hasNew, hasCur, hasTmp := false, false, false;
    var dirlist: seq<string> := seq(ExpectedSubdirectories, _ => "");
    var i := 0;
    while i < |infos|
      invariant 0 <= i <= |infos|
      invariant hasNew == HasDir(infos[..i], "new")
      invariant hasCur == HasDir(infos[..i], "cur")
      invariant hasTmp == HasDir(infos[..i], "tmp")
      invariant dirlist == FolderList(path, infos[..i], join)
    {
      var f := infos[i];
      assert infos[..i + 1][..i] == infos[..i];
      HasDirStep(infos, i, "new");
      HasDirStep(infos, i, "cur");
      HasDirStep(infos, i, "tmp");
      if f.isDir {
        if f.name == "new" {
          hasNew := true;
        } else if f.name == "cur" {
          hasCur := true;
        } else if f.name == "tmp" {
          hasTmp := true;
        } else {
          dirlist := dirlist + [join(path, f.name)];
        }
      }
      i := i + 1;
    }
    assert infos[..|infos|] == infos;
    if hasNew && hasCur && hasTmp {
      return Ok(Directory(path, None, dirlist));
    } else {
      return Err(NotMaildirError(path));
    }
  }

  lemma HasDirStep(infos: seq<Entry>, i: nat, name: string)
    requires i < |infos|
    ensures HasDir(infos[..i + 1], name) <==> HasDir(infos[..i], name) || (infos[i].isDir && infos[i].name == name)
  {
    if HasDir(infos[..i + 1], name) && !(infos[i].isDir && infos[i].name == name) {
      var k :| 0 <= k < i + 1 && infos[..i + 1][k].isDir && infos[..i + 1][k].name == name;
      assert infos[..i][k] == infos[k];
    }
    if HasDir(infos[..i], name) {
      var k :| 0 <= k < i && infos[..i][k].isDir && infos[..i][k].name == name;
      assert infos[..i + 1][k] == infos[k];
    }
    if infos[i].isDir && infos[i].name == name {
      assert infos[..i + 1][i] == infos[i];
    }
  }

  /** `Name`: the last element of the maildir's path. */
  function Name(d: Directory, base: PathBase): string
  {
    base(d.path)
  }

  /** `Folders`: the folder list kept at construction, never an error. */
  function Folders(d: Directory): Result<seq<string>>
  {
    Ok(d.dirList)
  }

  /**
   * A maildir made from a listing is named after its path, and its folders are
   * five blanks then every subdirectory but new, cur and tmp, joined onto the path.
   */
  lemma DirectoryAccessors(path: string, infos: seq<Entry>, join: PathJoin, base: PathBase)
    requires IsMaildir(infos)
    ensures Name(DirectoryFor(path, Ok(infos), join).value, base) == base(path)
    ensures Folders(DirectoryFor(path, Ok(infos), join).value) == Ok(FolderList(path, infos, join))
    ensures |Folders(DirectoryFor(path, Ok(infos), join).value).value| == ExpectedSubdirectories + |OtherDirs(infos)|
  {
  }

  // ---- messages ----

  const ContentType: string := "Content-Type"
  const TypeMultipart: string := "multipart/alternative"
  const ParamBoundry: string := "boundry"

  function NoContentTypeError(): string
  {
    "No header named '" + ContentType + "'"
  }

  function WrongMediaError(media: string, boundry: string): string
  {
    "Wrong media '" + media + "' while boundry retrieval was '" + boundry + "'."
  }

  /** What `Attatchments` returns, and the cache it leaves. */
  datatype Attached = Attached(result: Result<seq<Option<Part>>>, cache: Option<seq<Option<Part>>>)

  /**
   * `Attatchments`: a cached list is returned as it is; otherwise the message
   * must be `multipart/alternative` with a `boundry` parameter, and its parts
   * are collected after five placeholders and the initial nil part, and cached.
   */
  function AttachmentsOf(cache: Option<seq<Option<Part>>>, header: Header, body: seq<byte>,
                         parse: MediaParser, split: Splitter): (a: Attached)
    ensures cache.Some? ==> a == Attached(Ok(cache.value), cache)
    ensures a.result.Err? ==> a.cache == cache
    ensures a.result.Ok? ==> a.cache == Some(a.result.value)
    ensures cache.None? && ContentType !in header ==> a.result == Err(NoContentTypeError())
    ensures cache.None? && ContentType in header && parse(header[ContentType][0]).Err? ==>
              a.result == Err(parse(header[ContentType][0]).error)
    ensures cache.None? && ContentType in header && parse(header[ContentType][0]).Ok? ==>
              var media := parse(header[ContentType][0]).value;
              (media.mediaType != TypeMultipart || ParamBoundry !in media.params) ==>
                a.result == Err(WrongMediaError(media.mediaType, if ParamBoundry in media.params then media.params[ParamBoundry] else ""))
    ensures cache.None? && ContentType in header && parse(header[ContentType][0]).Ok? ==>
              var media := parse(header[ContentType][0]).value;
              (media.mediaType == TypeMultipart && ParamBoundry in media.params) ==>
                var s := split(body, media.params[ParamBoundry]);
                && (s.failure.Some? ==> a.result == Err(s.failure.value))
                && (s.failure.None? ==> a.result.Ok?)
    ensures cache.None? && a.result.Ok? ==>
              && ContentType in header
              && parse(header[ContentType][0]).Ok?
              && parse(header[ContentType][0]).value.mediaType == TypeMultipart
              && ParamBoundry in parse(header[ContentType][0]).value.params
  {
    if cache.Some? then Attached(Ok(cache.value), cache)
    else if ContentType !in header then Attached(Err(NoContentTypeError()), cache)
    else
      match parse(header[ContentType][0])
      case Err(e) => Attached(Err(e), cache)
      case Ok(media) =>
        var boundry := if ParamBoundry in media.params then media.params[ParamBoundry] else "";
        if media.mediaType == TypeMultipart && ParamBoundry in media.params then
          match Collected(split(body, boundry), ExpectedMessageParts)
          case Err(e) => Attached(Err(e), cache)
          case Ok(att) => Attached(Ok(att), Some(att))
        else Attached(Err(WrongMediaError(media.mediaType, boundry)), cache)
  }

  /**
   * A successful first call caches five placeholders, the initial nil part, then
   * every part of the split in order, each drained by the `NextPart` call that
   * followed it: its header, and no body left to read.
   */
  lemma AttachmentsLayout(header: Header, body: seq<byte>, parse: MediaParser, split: Splitter)
    requires AttachmentsOf(None, header, body, parse, split).result.Ok?
    ensures var media := parse(header[ContentType][0]).value;
      var s := split(body, media.params[ParamBoundry]);
      var att := AttachmentsOf(None, header, body, parse, split).result.value;
      && s.failure.None?
      && |att| == ExpectedMessageParts + 1 + |s.parts|
      && (forall i :: 0 <= i <= ExpectedMessageParts ==> att[i] == None)
      && (forall k :: 0 <= k < |s.parts| ==> att[ExpectedMessageParts + 1 + k] == Some(Part(s.parts[k].header, [])))
  {
    var media := parse(header[ContentType][0]).value;
    var s := split(body, media.params[ParamBoundry]);
    var r := Collected(s, ExpectedMessageParts);
    assert AttachmentsOf(None, header, body, parse, split).result == r;
    forall k | 0 <= k < |s.parts|
      ensures r.value[ExpectedMessageParts + 1 + k] == Some(Part(s.parts[k].header, []))
    {
      assert r.value[ExpectedMessageParts + 1 + k] == Some(Drained(s.parts[k]));
    }
  }

  /** A maildir message: its path, flags, header and body, and the cached parts. */
  class Message {
    const path: string
    var flags: Flag
    const header: Header
    const body: seq<byte>
    var attachments: Option<seq<Option<Part>>>

    /** The message `LoadMessage` builds from a parsed file; reading the file is left out. */
    constructor (path: string, header: Header, body: seq<byte>)
      ensures this.path == path && this.header == header && this.body == body
      ensures flags == 0 && attachments == None
    {
      this.path := path;
      this.header := header;
      this.body := body;
      flags := 0;
      attachments := None;
    }

    /** `Attatchments` over the abstract media-type parser and splitter. */
    method Attachments(parse: MediaParser, split: Splitter) returns (r: Result<seq<Option<Part>>>)
      modifies this
      ensures Attached(r, attachments) == AttachmentsOf(old(attachments), header, body, parse, split)
      ensures flags == old(flags)
    {
      if attachments.Some? {
        return Ok(attachments.value);
      }
      if ContentType !in header {
        return Err(NoContentTypeError());
      }
      var parsed := parse(header[ContentType][0]);
      if parsed.Err? {
        return Err(parsed.error);
      }
      var media := parsed.value;
      var hasBoundry := ParamBoundry in media.params;
      var boundry := if hasBoundry then media.params[ParamBoundry] else "";
      if media.mediaType == TypeMultipart && hasBoundry {
        var att := CollectParts(split(body, boundry), ExpectedMessageParts);
        if att.Err? {
          return Err(att.error);
        }
        attachments := Some(att.value);
        return Ok(att.value);
      } else {
        return Err(WrongMediaError(media.mediaType, boundry));
      }
    }
  }
}
