/**
 * The playlist parser: its envelop records, the resource-kind dispatch that builds a
 * parser, the HTTP status check of the URL loader, and the line loop of `Parse`.
 *
 * `Parse` reads the playlist line by line. The first line must be exactly `#EXTM3U`;
 * otherwise one error envelop is sent and the loop stops. A line on which the
 * `#EXTINF` pattern matches replaces the pending metadata; a non-empty line that does
 * not start with `#EXT` is a resource line, and the pending metadata is sent with its
 * URL set to that line. The pending record is never cleared after a resource line, so
 * later resource lines carry the same metadata. Every run ends with one EOF envelop.
 *
 * The channel the parser sends on is the output sequence; the text source, already
 * split into lines, is the input sequence.
 */
module M3u {
  import opened Wrappers
  import opened Extinf

  /** Resource kinds, as the integer constants of the source. */
  const ResourceTypeUnknown: int := 0
  const ResourceTypeFile: int := 1
  const ResourceTypeURL: int := 2

  datatype EnvelopType = Unknown | Eof | Metadata

  /** The errors the parser and its loaders report: a tag and the offending value. */
  datatype Error =
    | InvalidHeader(line: string)
    | UnsupportedResourceType(resourceType: int)
    | HttpStatus(url: string, statusCode: int)
    | LoadFailed(reason: string)

  /** One message of the parser. */
  datatype Envelop = Envelop(
    kind: EnvelopType,
    url: string,
    otherName: string,
    group: string,
    name: string,
    logo: string,
    id: string,
    rawValue: string,
    err: Option<Error>)

  /** The zero envelop: every field empty, kind `Unknown`, no error. */
  const EmptyEnvelop: Envelop := Envelop(Unknown, "", "", "", "", "", "", "", None)

  /** The last message of every run. */
  const EofEnvelop: Envelop := EmptyEnvelop.(kind := Eof)

  /** The line every playlist must start with. */
  const Header: string := "#EXTM3U"

  /** Lines starting with this are directives, never resources. */
  const DirectivePrefix: string := "#EXT"

  // ---------------------------------------------------------------------------
  // Building a parser
  // ---------------------------------------------------------------------------

  /** What a loader gives back: the content when it could open it, and an error if any. */
  datatype Loaded = Loaded(content: Option<seq<string>>, err: Option<Error>)

  /** A parser: the resource it reads, its kind, and the opened content, if any. */
  datatype Parser = Parser(resource: string, resourceType: int, content: Option<seq<string>>)

  /** What `NewParser` returns: a parser or none, and an error or none. */
  datatype Created = Created(parser: Option<Parser>, err: Option<Error>)

  /**
   * `NewParser`: dispatch on the resource kind to the file or the URL loader, whose
   * behaviour is given as the functions `loadFile` and `loadURL`. A file or URL
   * resource gives a parser even when its loader fails, together with the loader's
   * error; any other kind gives no parser and an unsupported-kind error.
   */
  function NewParser(resource: string, resourceType: int, loadFile: string -> Loaded, loadURL: string -> Loaded)
    : (r: Created)
    ensures r.parser.Some? <==> resourceType == ResourceTypeFile || resourceType == ResourceTypeURL
    ensures r.parser.None? ==> r.err == Some(UnsupportedResourceType(resourceType))
    ensures r.parser.Some? ==>
              && r.parser.value.resource == resource && r.parser.value.resourceType == resourceType
              && var loaded := if resourceType == ResourceTypeFile then loadFile(resource) else loadURL(resource);
              && r.parser.value.content == loaded.content && r.err == loaded.err
  {
    if resourceType == ResourceTypeFile then
      var loaded := loadFile(resource);
      Created(Some(Parser(resource, resourceType, loaded.content)), loaded.err)
    else if resourceType == ResourceTypeURL then
      var loaded := loadURL(resource);
      Created(Some(Parser(resource, resourceType, loaded.content)), loaded.err)
    else
      Created(None, Some(UnsupportedResourceType(resourceType)))
  }

  /** The outcome of the HTTP GET of the URL loader. */
  datatype Fetch = FetchFailed(reason: string) | Response(statusCode: int, body: seq<string>)

  /**
   * `loadURL` after the request: a failed request is passed on, a status of 400 or
   * more is an error carrying the URL and the status, anything else gives the body.
   */
  function LoadURL(url: string, fetched: Fetch): (r: Loaded)
    ensures r.content.Some? <==> r.err.None?
    ensures r.content.Some? <==> fetched.Response? && fetched.statusCode < 400
    ensures r.content.Some? ==> r.content.value == fetched.body
    ensures fetched.Response? && fetched.statusCode >= 400 ==> r.err == Some(HttpStatus(url, fetched.statusCode))
    ensures fetched.FetchFailed? ==> r.err == Some(LoadFailed(fetched.reason))
  {
    match fetched
    case FetchFailed(reason) => Loaded(None, Some(LoadFailed(reason)))
    case Response(status, body) =>
      if status >= 400 then Loaded(None, Some(HttpStatus(url, status))) else Loaded(Some(body), None)
  }

  // ---------------------------------------------------------------------------
  // What a run sends
  // ---------------------------------------------------------------------------

  /** The envelop for a header that is not `#EXTM3U`. */
  function HeaderError(line: string): (e: Envelop)
    ensures e.err.Some? && e.rawValue == line && e.kind == Unknown
  {
    EmptyEnvelop.(rawValue := line, err := Some(InvalidHeader(line)))
  }

  /** The pending metadata right after a directive line `line` with captured fields `f`. */
  function MetadataEnvelop(line: string, f: Fields): (e: Envelop)
    ensures e.kind == Metadata && e.url == "" && e.err.None? && e.rawValue == line
    ensures e.id == f.id && e.name == f.name && e.logo == f.logo && e.group == f.group && e.otherName == f.otherName
  {
    Envelop(Metadata, "", f.otherName, f.group, f.name, f.logo, f.id, line, None)
  }

  /** A line that sends the pending metadata: no directive match, non-empty, not `#EXT…`. */
  predicate IsResourceLine(line: string)
    ensures IsResourceLine(line) ==> line != Header && !(Opening <= line)
  {
    assert Opening[..|DirectivePrefix|] == DirectivePrefix;
    MatchDirective(line).None? && |line| > 0 && !(DirectivePrefix <= line)
  }

  /**
   * The metadata of the most recent directive line among `lines`, with an empty URL;
   * the empty envelop when none matched.
   */
  function LastDirective(lines: seq<string>): (e: Envelop)
    ensures e.url == "" && e.err.None? && e.kind != Eof
    ensures e.kind == Unknown ==> e == EmptyEnvelop
    decreases |lines|
  {
    if |lines| == 0 then EmptyEnvelop
    else
      var last := lines[|lines| - 1];
      match MatchDirective(last)
      case Some(f) => MetadataEnvelop(last, f)
      case None => LastDirective(lines[..|lines| - 1])
  }

  /**
   * What the loop sends for `lines` after a valid header: one envelop per resource
   * line, in order, carrying the metadata of the most recent directive before it.
   */
  function Emitted(lines: seq<string>): (r: seq<Envelop>)
    ensures |r| <= |lines|
    ensures forall j :: 0 <= j < |r| ==> r[j].kind != Eof && r[j].err.None? && r[j].url != ""
    decreases |lines|
  {
    if |lines| == 0 then []
    else
      var init := lines[..|lines| - 1];
      var last := lines[|lines| - 1];
      Emitted(init) + if IsResourceLine(last) then [LastDirective(init).(url := last)] else []
  }

  /**
   * Everything one run sends for the input `content`: EOF alone for no input; the
   * header error then EOF when the first line is not `#EXTM3U`; otherwise the resource
   * envelops then EOF. Exactly one EOF, always last.
   */
  function Parsed(content: seq<string>): (r: seq<Envelop>)
    ensures |r| > 0 && r[|r| - 1] == EofEnvelop
    ensures forall j :: 0 <= j < |r| - 1 ==> r[j].kind != Eof
  {
    if |content| == 0 then [EofEnvelop]
    else if content[0] != Header then [HeaderError(content[0]), EofEnvelop]
    else Emitted(content) + [EofEnvelop]
  }

  // ---------------------------------------------------------------------------
  // The line loop
  // ---------------------------------------------------------------------------

  /** How one more line extends what is sent and what is pending. */
  lemma NextLine(content: seq<string>, i: nat)
    requires i < |content|
    ensures LastDirective(content[..i + 1])
              == if MatchDirective(content[i]).Some? then MetadataEnvelop(content[i], MatchDirective(content[i]).value)
                 else LastDirective(content[..i])
    ensures Emitted(content[..i + 1])
              == Emitted(content[..i]) + if IsResourceLine(content[i]) then [LastDirective(content[..i]).(url := content[i])] else []
  {
    assert content[..i + 1][..i] == content[..i];
  }

  /**
   * `Parser.Parse`: the line loop, sending on `out`. `lines` counts the lines handled,
   * `envelop` is the one pending record, reset on each directive line and updated
   * field by field.
   */
  method Parse(content: seq<string>) returns (out: seq<Envelop>)
    ensures out == Parsed(content)
    ensures |content| == 0 ==> out == [EofEnvelop]
    ensures |content| > 0 && content[0] != Header ==> out == [HeaderError(content[0]), EofEnvelop]
  {
    out := [];
    var lines := 0;
    var envelop := EmptyEnvelop;
    var i := 0;
    while i < |content|
      invariant 0 <= i <= |content| && lines == i
      invariant i > 0 ==> content[0] == Header
      invariant out == Emitted(content[..i])
      invariant envelop.(url := "") == LastDirective(content[..i])
    {
      var value := content[i];
      if lines == 0 && value != Header {
        out := out + [HeaderError(value)];
        break;
      }
      NextLine(content, i);
      var found := MatchDirective(value);
      if found.None? {
        if |value| > 0 && !(DirectivePrefix <= value) {
          envelop := envelop.(url := value);
          out := out + [envelop];
        }
        lines := lines + 1;
        i := i + 1;
        continue;
      }
      var f := found.value;
      envelop := EmptyEnvelop;
      envelop := envelop.(rawValue := value);
      envelop := envelop.(kind := Metadata);
      envelop := envelop.(id := f.id);
      envelop := envelop.(name := f.name);
      envelop := envelop.(logo := f.logo);
      envelop := envelop.(group := f.group);
      envelop := envelop.(otherName := f.otherName);
      lines := lines + 1;
      i := i + 1;
    }
    if i == |content| {
      assert content[..i] == content;
    }
    out := out + [EofEnvelop];
  }
}
