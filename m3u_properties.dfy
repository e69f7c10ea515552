/**
 * What a run of the playlist parser sends, stated about the reference functions of
 * `M3u` (which `M3u.Parse` is proved to compute): resource lines in input order, stale
 * metadata carried over, resource lines before any directive, comment lines, and a
 * directive line followed by a resource line.
 */
module M3uProperties {
  import opened Wrappers
  import opened Extinf
  import opened M3u

  /** The resource lines among `lines`, in order. */
  function ResourceLines(lines: seq<string>): (r: seq<string>)
    ensures |r| <= |lines|
    ensures forall j :: 0 <= j < |r| ==> IsResourceLine(r[j]) && r[j] in lines
    decreases |lines|
  {
    if |lines| == 0 then []
    else
      var init := lines[..|lines| - 1];
      var last := lines[|lines| - 1];
      ResourceLines(init) + if IsResourceLine(last) then [last] else []
  }

  /** The envelop `e` sent once for each of the URLs `urls`, in order. */
  function Stamp(e: Envelop, urls: seq<string>): seq<Envelop> {
    seq(|urls|, k requires 0 <= k < |urls| => e.(url := urls[k]))
  }

  /** No line of `lines` matches the directive pattern. */
  predicate NoDirective(lines: seq<string>) {
    forall k :: 0 <= k < |lines| ==> MatchDirective(lines[k]).None?
  }

  /**
   * One envelop per resource line, in input order, each with that line as its URL;
   * every other line sends nothing.
   */
  lemma {:induction false} ResourceLinesInOrder(lines: seq<string>)
    ensures |Emitted(lines)| == |ResourceLines(lines)|
    ensures forall j :: 0 <= j < |Emitted(lines)| ==> Emitted(lines)[j].url == ResourceLines(lines)[j]
    decreases |lines|
  {
    if |lines| > 0 {
      ResourceLinesInOrder(lines[..|lines| - 1]);
    }
  }

  /** Lines that match no directive leave the pending metadata as it was. */
  lemma {:induction false} LatestUnchanged(pre: seq<string>, rest: seq<string>)
    requires NoDirective(rest)
    ensures LastDirective(pre + rest) == LastDirective(pre)
    decreases |rest|
  {
    if |rest| > 0 {
      var init := rest[..|rest| - 1];
      assert (pre + rest)[..|pre + rest| - 1] == pre + init;
      assert (pre + rest)[|pre + rest| - 1] == rest[|rest| - 1];
      LatestUnchanged(pre, init);
    } else {
      assert pre + rest == pre;
    }
  }

  /**
   * After `pre`, lines that match no directive send the metadata pending after `pre`,
   * once per resource line, with that line as URL.
   */
  lemma {:induction false} CarryOver(pre: seq<string>, rest: seq<string>)
    requires NoDirective(rest)
    ensures Emitted(pre + rest) == Emitted(pre) + Stamp(LastDirective(pre), ResourceLines(rest))
    decreases |rest|
  {
    var e := LastDirective(pre);
    if |rest| == 0 {
      assert pre + rest == pre;
    } else {
      var init := rest[..|rest| - 1];
      var last := rest[|rest| - 1];
      assert (pre + rest)[..|pre + rest| - 1] == pre + init;
      assert (pre + rest)[|pre + rest| - 1] == last;
      CarryOver(pre, init);
      LatestUnchanged(pre, init);
      if IsResourceLine(last) {
        assert Stamp(e, ResourceLines(init) + [last]) == Stamp(e, ResourceLines(init)) + [e.(url := last)];
      }
    }
  }

  /**
   * Stale metadata: after a directive line `d`, every later resource line up to the
   * next directive is sent with the metadata of `d`, whatever came before `d`.
   */
  lemma StaleCarryOver(pre: seq<string>, d: string, rest: seq<string>)
    requires MatchDirective(d).Some? && NoDirective(rest)
    ensures Emitted(pre + [d] + rest)
              == Emitted(pre) + Stamp(MetadataEnvelop(d, MatchDirective(d).value), ResourceLines(rest))
  {
    CarryOver(pre + [d], rest);
    assert (pre + [d])[..|pre + [d]| - 1] == pre;
  }

  /**
   * Resource lines before any directive are sent with kind `Unknown` and every
   * metadata field empty.
   */
  lemma OrphanResources(lines: seq<string>)
    requires NoDirective(lines)
    ensures Emitted(lines) == Stamp(EmptyEnvelop, ResourceLines(lines))
    ensures forall j :: 0 <= j < |Emitted(lines)| ==> Emitted(lines)[j].kind == Unknown
  {
    CarryOver([], lines);
    assert [] + lines == lines;
    var sent := Emitted(lines);
    forall j | 0 <= j < |sent|
      ensures sent[j].kind == Unknown
    {
      assert sent[j] == EmptyEnvelop.(url := ResourceLines(lines)[j]);
    }
  }

  /** What a run sends is what it sent for a shorter input, then more. */
  lemma {:induction false} EmittedGrows(a: seq<string>, b: seq<string>)
    ensures Emitted(a) <= Emitted(a + b)
    decreases |b|
  {
    if |b| == 0 {
      assert a + b == a;
    } else {
      var init := b[..|b| - 1];
      assert (a + b)[..|a + b| - 1] == a + init;
      EmittedGrows(a, init);
    }
  }

  /** A line that starts with the directive pattern's opening text starts with `#EXT`. */
  lemma OpeningIsDirective(line: string)
    ensures HasPrefixAt(line, 0, Opening) ==> DirectivePrefix <= line
  {
    if HasPrefixAt(line, 0, Opening) {
      forall i | 0 <= i < |DirectivePrefix|
        ensures line[i] == DirectivePrefix[i]
      {
        assert line[0 + i] == Opening[i];
      }
    }
  }

  /**
   * A comment line, starting with `#` but not `#EXT` and with no other `#`, is a
   * resource line.
   */
  lemma CommentLineIsResource(line: string)
    requires |line| > 0 && line[0] == '#' && !(DirectivePrefix <= line)
    requires forall i :: 0 < i < |line| ==> line[i] != '#'
    ensures IsResourceLine(line)
  {
    OpeningIsDirective(line);
    NoDirectiveWithoutOpening(line);
  }

  /** The header line is neither a directive nor a resource line. */
  lemma HeaderSendsNothing()
    ensures MatchDirective(Header).None? && !IsResourceLine(Header)
  {
    MatchStartsOpening(Header);
    assert DirectivePrefix <= Header;
  }

  /**
   * A directive line built from quote-free, single-line fields `f` replaces whatever
   * metadata was pending: the next resource line `u` is sent with exactly the fields of
   * `f`, the directive line as raw value, kind `Metadata` and URL `u`.
   */
  lemma DirectiveThenResource(pre: seq<string>, f: Fields, u: string)
    requires NoQuote(f.id) && NoQuote(f.name) && NoQuote(f.logo) && NoQuote(f.group)
    requires NoNewline(f.id) && NoNewline(f.name) && NoNewline(f.logo)
    requires NoNewline(f.group) && NoNewline(f.otherName)
    requires IsResourceLine(u)
    ensures Emitted(pre + [DirectiveLine(f), u])
              == Emitted(pre) + [MetadataEnvelop(DirectiveLine(f), f).(url := u)]
  {
    var d := DirectiveLine(f);
    DirectiveRoundTrip(f);
    StaleCarryOver(pre, d, [u]);
    assert pre + [d] + [u] == pre + [d, u];
    assert ResourceLines([u]) == [u] by {
      assert [u][..0] == [];
    }
  }

  /** The smallest playlist with one entry: the header, one directive line, one resource line. */
  lemma OneEntryPlaylist(f: Fields, u: string)
    requires NoQuote(f.id) && NoQuote(f.name) && NoQuote(f.logo) && NoQuote(f.group)
    requires NoNewline(f.id) && NoNewline(f.name) && NoNewline(f.logo)
    requires NoNewline(f.group) && NoNewline(f.otherName)
    requires IsResourceLine(u)
    ensures Parsed([Header, DirectiveLine(f), u])
              == [MetadataEnvelop(DirectiveLine(f), f).(url := u), EofEnvelop]
  {
    HeaderSendsNothing();
    DirectiveThenResource([Header], f, u);
    assert [Header][..0] == [];
    assert [Header] + [DirectiveLine(f), u] == [Header, DirectiveLine(f), u];
  }

  /**
   * Any resource kind other than file or URL gives no parser and the same error
   * whatever the loaders would do: neither loader is consulted.
   */
  lemma UnsupportedKindIgnoresLoaders(resource: string, resourceType: int,
                                      loadFile: string -> Loaded, loadURL: string -> Loaded,
                                      otherFile: string -> Loaded, otherURL: string -> Loaded)
    requires resourceType != ResourceTypeFile && resourceType != ResourceTypeURL
    ensures NewParser(resource, resourceType, loadFile, loadURL) == NewParser(resource, resourceType, otherFile, otherURL)
    ensures NewParser(resource, resourceType, loadFile, loadURL) == Created(None, Some(UnsupportedResourceType(resourceType)))
  {
  }
}
