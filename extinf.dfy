/**
 * The fixed `#EXTINF` directive pattern of the playlist parser, as an explicit matcher.
 *
 * The parser compiles one regular expression,
 *   #EXTINF:-1 tvg-id="(id.*?)" tvg-name="(name.*?)" tvg-logo="(logo.*?)" group-title="(group.*?)",(other.*)
 * and applies it unanchored to each line. Go's regexp package picks the leftmost
 * match and, among matches that start there, the one a backtracking matcher finds
 * first: each lazy `.*?` group is as short as the rest of the pattern allows, taken
 * in order (id first), and the trailing greedy `.*` runs to the end of the line.
 * `.` matches every character except a newline.
 *
 * The four lazy groups are "stages" 0..3 of one scan: stage n reads its field up to
 * the separator `seps[n]`; stage 3 is followed by the greedy rest of the line. A match
 * is described, as Go's submatch indices describe it, by the position where each group
 * ends (`Cuts`). The scan and its lemmas take the separator table as a parameter, so
 * that they hold for any separators that open with a double quote; `Separators` is the
 * table of this pattern.
 */
module Extinf {
  import opened Wrappers

  /** Text before the first captured field. */
  const Opening: string := "#EXTINF:-1 tvg-id=\""

  /** The literal text after each lazy field, in pattern order. */
  const Separators: seq<string> := ["\" tvg-name=\"", "\" tvg-logo=\"", "\" group-title=\"", "\","]

  /** A separator table: four separators, each opening with the quote that closes a field. */
  predicate QuotedSeps(seps: seq<string>) {
    |seps| == 4 && forall i :: 0 <= i < 4 ==> |seps[i]| > 0 && seps[i][0] == '"'
  }

  /** The captured fields of one directive line. */
  datatype Fields = Fields(id: string, name: string, logo: string, group: string, otherName: string)

  /**
   * Where the groups of a match end, from some stage on: one `Cut` per remaining lazy
   * field, then the end of the greedy rest of the line (`Eol`).
   */
  datatype Cuts = Cut(end: nat, next: Cuts) | Eol(end: nat)

  /** A match: where it starts in the line and where its groups end. */
  datatype DirectiveMatch = DirectiveMatch(start: nat, cuts: Cuts)

  /** `c` has one cut per lazy field from stage `stage` on, then the end of the line. */
  predicate Shaped(c: Cuts, stage: nat)
    requires stage < 4
    decreases 4 - stage
  {
    c.Cut? && if stage == 3 then c.next.Eol? else Shaped(c.next, stage + 1)
  }

  predicate NoNewline(t: string) {
    forall i :: 0 <= i < |t| ==> t[i] != '\n'
  }

  predicate NoQuote(t: string) {
    forall i :: 0 <= i < |t| ==> t[i] != '"'
  }

  predicate NoNewlineBetween(s: string, lo: nat, hi: nat)
    requires lo <= hi <= |s|
  {
    forall i :: lo <= i < hi ==> s[i] != '\n'
  }

  predicate NoQuoteBetween(s: string, lo: nat, hi: nat)
    requires lo <= hi <= |s|
  {
    forall i :: lo <= i < hi ==> s[i] != '"'
  }

  /** `t` occurs in `s` at position `k`. */
  predicate HasPrefixAt(s: string, k: nat, t: string) {
    k + |t| <= |s| && forall i :: 0 <= i < |t| ==> s[k + i] == t[i]
  }

  /** `e` is the next newline at or after `j`, or the end of `s`: where a greedy `.*` from `j` stops. */
  predicate LineEnd(s: string, j: nat, e: nat) {
    j <= e <= |s| && NoNewlineBetween(s, j, e) && (e == |s| || s[e] == '\n')
  }

  /**
   * The pattern from stage `stage` on matches `s` from `q` with group ends `c`;
   * no priority implied.
   */
  predicate Fits(s: string, seps: seq<string>, stage: nat, q: nat, c: Cuts)
    requires QuotedSeps(seps) && stage < 4
    decreases 4 - stage
  {
    && c.Cut? && q <= c.end <= |s| && NoNewlineBetween(s, q, c.end)
    && HasPrefixAt(s, c.end, seps[stage])
    && var j := c.end + |seps[stage]|;
    && if stage == 3 then c.next.Eol? && LineEnd(s, j, c.next.end)
       else Fits(s, seps, stage + 1, j, c.next)
  }

  /** The whole pattern matches `s` at `p` with group ends `c`. */
  predicate Occurs(s: string, p: nat, c: Cuts) {
    HasPrefixAt(s, p, Opening) && Fits(s, Separators, 0, p + |Opening|, c)
  }

  /**
   * Backtracking priority between two matches from the same position: the lazy
   * fields end earlier, compared in pattern order.
   */
  predicate Preferred(stage: nat, a: Cuts, b: Cuts)
    requires stage < 4 && Shaped(a, stage) && Shaped(b, stage)
    decreases 4 - stage
  {
    || a.end < b.end
    || (a.end == b.end && (stage == 3 || Preferred(stage + 1, a.next, b.next)))
  }

  /** The greedy `.*` at the end of the pattern, from position `j`. */
  function LineEndFrom(s: string, j: nat): (e: nat)
    requires j <= |s|
    ensures LineEnd(s, j, e)
    decreases |s| - j
  {
    if j == |s| || s[j] == '\n' then j else LineEndFrom(s, j + 1)
  }

  /**
   * The lazy field of stage `stage`, tried so far up to `k`: close it at `k` if the
   * rest of the pattern matches from there, else extend it by one character.
   */
  function Field(s: string, seps: seq<string>, stage: nat, k: nat): (r: Option<Cuts>)
    requires QuotedSeps(seps) && stage < 4 && k <= |s|
    ensures r.Some? ==> Shaped(r.value, stage) && k <= r.value.end
    decreases 4 - stage, |s| - k, 1
  {
    match Close(s, seps, stage, k)
    case Some(rest) => Some(Cut(k, rest))
    case None => if k == |s| || s[k] == '\n' then None else Field(s, seps, stage, k + 1)
  }

  /**
   * Closing the field of stage `stage` at `k`: its separator, then the later stages
   * (or, after the last lazy field, the rest of the line).
   */
  function Close(s: string, seps: seq<string>, stage: nat, k: nat): (r: Option<Cuts>)
    requires QuotedSeps(seps) && stage < 4 && k <= |s|
    ensures r.Some? && stage == 3 ==> r.value.Eol?
    ensures r.Some? && stage < 3 ==> Shaped(r.value, stage + 1)
    decreases 4 - stage, |s| - k, 0
  {
    if !HasPrefixAt(s, k, seps[stage]) then None
    else
      var j := k + |seps[stage]|;
      if stage == 3 then Some(Eol(LineEndFrom(s, j))) else Field(s, seps, stage + 1, j)
  }

  /** The pattern anchored at `p`. */
  function MatchAt(s: string, p: nat): (r: Option<Cuts>)
    requires p <= |s|
    ensures r.Some? ==> Shaped(r.value, 0)
  {
    if HasPrefixAt(s, p, Opening) then Field(s, Separators, 0, p + |Opening|) else None
  }

  /** Unanchored search from `p` on: the first start position where the pattern matches. */
  function FindFrom(s: string, p: nat): (r: Option<DirectiveMatch>)
    requires p <= |s|
    ensures r.Some? ==> p <= r.value.start <= |s| && Shaped(r.value.cuts, 0)
    decreases |s| - p
  {
    match MatchAt(s, p)
    case Some(c) => Some(DirectiveMatch(p, c))
    case None => if p == |s| then None else FindFrom(s, p + 1)
  }

  /** The search of the directive pattern on one line. */
  function FindDirective(s: string): (r: Option<DirectiveMatch>)
    ensures r.Some? ==> r.value.start <= |s| && Shaped(r.value.cuts, 0)
  {
    FindFrom(s, 0)
  }

  /**
   * `c` has four cuts then the end of the line, in order from `q`, each cut leaving room
   * for its separator, and within `s`.
   */
  predicate Bounded(s: string, seps: seq<string>, q: nat, c: Cuts)
    requires |seps| == 4
  {
    && c.Cut? && c.next.Cut? && c.next.next.Cut? && c.next.next.next.Cut? && c.next.next.next.next.Eol?
    && q <= c.end && c.end + |seps[0]| <= c.next.end && c.next.end + |seps[1]| <= c.next.next.end
    && c.next.next.end + |seps[2]| <= c.next.next.next.end
    && c.next.next.next.end + |seps[3]| <= c.next.next.next.next.end <= |s|
  }

  /**
   * The texts of the five groups of a match whose first field starts at `q`: together
   * with the four separators they span the match from `q` to the end of the line's rest,
   * and on a match they are that text.
   */
  function Groups(s: string, seps: seq<string>, q: nat, c: Cuts): (g: Fields)
    requires |seps| == 4 && Bounded(s, seps, q, c)
    ensures |g.id| + |seps[0]| + |g.name| + |seps[1]| + |g.logo| + |seps[2]| + |g.group| + |seps[3]| + |g.otherName|
              == c.next.next.next.next.end - q
    ensures QuotedSeps(seps) && Fits(s, seps, 0, q, c) ==>
              g.id + seps[0] + g.name + seps[1] + g.logo + seps[2] + g.group + seps[3] + g.otherName
              == s[q..c.next.next.next.next.end]
  {
    var c1 := c.next;
    var c2 := c1.next;
    var c3 := c2.next;
    SpanText(s, seps, q, c);
    Fields(s[q..c.end], s[c.end + |seps[0]|..c1.end], s[c1.end + |seps[1]|..c2.end],
           s[c2.end + |seps[2]|..c3.end], s[c3.end + |seps[3]|..c3.next.end])
  }

  /** A separator placed at `k` splits the text from `q` to `e` around it. */
  lemma SpanStep(s: string, q: nat, k: nat, sep: string, e: nat)
    requires q <= k && k + |sep| <= e <= |s| && HasPrefixAt(s, k, sep)
    ensures s[q..e] == s[q..k] + sep + s[k + |sep|..e]
  {
    assert s[k..k + |sep|] == sep;
  }

  /** Nine texts joined from the left are the same texts nested to the right. */
  lemma RegroupRight(a: string, b: string, c: string, d: string, e: string, f: string, g: string, h: string, i: string)
    ensures a + b + c + d + e + f + g + h + i == a + (b + (c + (d + (e + (f + (g + (h + i)))))))
  {
  }

  /** Nine texts joined one after another, grouped either way. */
  lemma Regroup(a: string, b: string, c: string, d: string, e: string, f: string, g: string, h: string, i: string)
    ensures a + b + c + d + e + f + g + h + i == a + b + (c + d + (e + f + (g + h + i)))
  {
  }

  /** A match's separators stand where its cuts say. */
  lemma FitsSeparators(s: string, seps: seq<string>, q: nat, c: Cuts)
    requires QuotedSeps(seps) && Fits(s, seps, 0, q, c)
    ensures HasPrefixAt(s, c.end, seps[0]) && HasPrefixAt(s, c.next.end, seps[1])
    ensures HasPrefixAt(s, c.next.next.end, seps[2]) && HasPrefixAt(s, c.next.next.next.end, seps[3])
  {
    assert Fits(s, seps, 1, c.end + |seps[0]|, c.next);
    assert Fits(s, seps, 2, c.next.end + |seps[1]|, c.next.next);
  }

  /** On a match, the group texts and the separators between them make up the matched text. */
  lemma SpanText(s: string, seps: seq<string>, q: nat, c: Cuts)
    requires |seps| == 4 && Bounded(s, seps, q, c)
    ensures var c1, c2, c3 := c.next, c.next.next, c.next.next.next;
            var e := c3.next.end;
            QuotedSeps(seps) && Fits(s, seps, 0, q, c) ==>
              s[q..c.end] + seps[0] + s[c.end + |seps[0]|..c1.end] + seps[1] + s[c1.end + |seps[1]|..c2.end]
              + seps[2] + s[c2.end + |seps[2]|..c3.end] + seps[3] + s[c3.end + |seps[3]|..e]
              == s[q..e]
  {
    if QuotedSeps(seps) && Fits(s, seps, 0, q, c) {
      FitsSeparators(s, seps, q, c);
      SpanSplit(s, seps, q, c);
    }
  }

  lemma SpanSplit(s: string, seps: seq<string>, q: nat, c: Cuts)
    requires |seps| == 4 && Bounded(s, seps, q, c)
    requires HasPrefixAt(s, c.end, seps[0]) && HasPrefixAt(s, c.next.end, seps[1])
    requires HasPrefixAt(s, c.next.next.end, seps[2]) && HasPrefixAt(s, c.next.next.next.end, seps[3])
    ensures var c1, c2, c3 := c.next, c.next.next, c.next.next.next;
            var e := c3.next.end;
            s[q..c.end] + seps[0] + s[c.end + |seps[0]|..c1.end] + seps[1] + s[c1.end + |seps[1]|..c2.end]
            + seps[2] + s[c2.end + |seps[2]|..c3.end] + seps[3] + s[c3.end + |seps[3]|..e]
            == s[q..e]
  {
    var c1, c2, c3 := c.next, c.next.next, c.next.next.next;
    var e := c3.next.end;
    var j1, j2, j3, j4 := c.end + |seps[0]|, c1.end + |seps[1]|, c2.end + |seps[2]|, c3.end + |seps[3]|;
    SpanStep(s, q, c.end, seps[0], e);
    SpanStep(s, j1, c1.end, seps[1], e);
    SpanStep(s, j2, c2.end, seps[2], e);
    SpanStep(s, j3, c3.end, seps[3], e);
    Regroup(s[q..c.end], seps[0], s[j1..c1.end], seps[1], s[j2..c2.end], seps[2], s[j3..c3.end], seps[3], s[j4..e]);
  }

  /** The five values of `f`, in pattern order. */
  function AsSeq(f: Fields): (v: seq<string>)
    ensures |v| == 5
  {
    [f.id, f.name, f.logo, f.group, f.otherName]
  }

  /** `FindStringSubmatch` of the directive pattern on one line: the captured fields, if any. */
  function MatchDirective(s: string): (r: Option<Fields>)
    ensures r.Some? <==> FindDirective(s).Some?
  {
    match FindDirective(s)
    case Some(m) =>
      DirectiveSound(s);
      FitsBounded(s, Separators, m.start + |Opening|, m.cuts);
      Some(Groups(s, Separators, m.start + |Opening|, m.cuts))
    case None => None
  }

  // ---------------------------------------------------------------------------
  // Soundness: what the scan returns is a match
  // ---------------------------------------------------------------------------

  lemma {:induction false} FieldSound(s: string, seps: seq<string>, stage: nat, q: nat, k: nat)
    requires QuotedSeps(seps) && stage < 4 && q <= k <= |s| && NoNewlineBetween(s, q, k)
    ensures Field(s, seps, stage, k).Some? ==> Fits(s, seps, stage, q, Field(s, seps, stage, k).value)
    decreases 4 - stage, |s| - k, 1
  {
    var r := Close(s, seps, stage, k);
    if r.Some? {
      CloseSound(s, seps, stage, k);
      assert Field(s, seps, stage, k) == Some(Cut(k, r.value));
    } else if k < |s| && s[k] != '\n' {
      FieldSound(s, seps, stage, q, k + 1);
      assert Field(s, seps, stage, k) == Field(s, seps, stage, k + 1);
    }
  }

  lemma {:induction false} CloseSound(s: string, seps: seq<string>, stage: nat, k: nat)
    requires QuotedSeps(seps) && stage < 4 && k <= |s|
    ensures Close(s, seps, stage, k).Some? ==>
              var c := Close(s, seps, stage, k).value;
              && HasPrefixAt(s, k, seps[stage])
              && (stage == 3 ==> LineEnd(s, k + |seps[stage]|, c.end))
              && (stage < 3 ==> Fits(s, seps, stage + 1, k + |seps[stage]|, c))
    decreases 4 - stage, |s| - k, 0
  {
    if HasPrefixAt(s, k, seps[stage]) && stage < 3 {
      var j := k + |seps[stage]|;
      FieldSound(s, seps, stage + 1, j, j);
      assert Close(s, seps, stage, k) == Field(s, seps, stage + 1, j);
    }
  }

  lemma {:induction false} FindFromSound(s: string, p: nat)
    requires p <= |s|
    ensures FindFrom(s, p).Some? ==> Occurs(s, FindFrom(s, p).value.start, FindFrom(s, p).value.cuts)
    decreases |s| - p
  {
    if MatchAt(s, p).Some? {
      var q := p + |Opening|;
      FieldSound(s, Separators, 0, q, q);
    } else if p < |s| {
      FindFromSound(s, p + 1);
    }
  }

  /** Soundness of the search: a match found is an occurrence of the pattern in the line. */
  lemma DirectiveSound(s: string)
    ensures FindDirective(s).Some? ==> Occurs(s, FindDirective(s).value.start, FindDirective(s).value.cuts)
  {
    FindFromSound(s, 0);
  }

  // ---------------------------------------------------------------------------
  // Completeness and priority
  // ---------------------------------------------------------------------------

  /** A match lays its group ends out in order within the line. */
  lemma FitsBounded(s: string, seps: seq<string>, q: nat, c: Cuts)
    requires QuotedSeps(seps) && Fits(s, seps, 0, q, c)
    ensures Bounded(s, seps, q, c)
  {
    assert Fits(s, seps, 1, c.end + |seps[0]|, c.next);
    assert Fits(s, seps, 2, c.next.end + |seps[1]|, c.next.next);
    assert Fits(s, seps, 3, c.next.next.end + |seps[2]|, c.next.next.next);
  }

  /** Whatever the greedy `.*` can end at is what `LineEndFrom` finds. */
  lemma LineEndUnique(s: string, j: nat, e: nat, e': nat)
    requires LineEnd(s, j, e) && LineEnd(s, j, e')
    ensures e == e'
  {
    if e < e' {
      assert false;
    } else if e' < e {
      assert false;
    }
  }

  /**
   * If the pattern from stage `stage` fits from `q` with group ends `c`, the lazy scan
   * (tried up to any `k` not beyond the end of the first field of `c`) finds a match,
   * and the one it finds has backtracking priority over `c`.
   */
  lemma {:induction false} FieldComplete(s: string, seps: seq<string>, stage: nat, q: nat, k: nat, c: Cuts)
    requires QuotedSeps(seps) && stage < 4 && Shaped(c, stage) && Fits(s, seps, stage, q, c)
    requires q <= k <= c.end
    ensures Field(s, seps, stage, k).Some?
    ensures Preferred(stage, Field(s, seps, stage, k).value, c)
    decreases 4 - stage, |s| - k, 1
  {
    var r := Close(s, seps, stage, k);
    if k == c.end {
      CloseComplete(s, seps, stage, k, c.next);
      assert Field(s, seps, stage, k) == Some(Cut(k, r.value));
    } else if r.None? {
      assert s[k] != '\n';
      FieldComplete(s, seps, stage, q, k + 1, c);
      assert Field(s, seps, stage, k) == Field(s, seps, stage, k + 1);
    } else {
      assert Field(s, seps, stage, k) == Some(Cut(k, r.value));
    }
  }

  lemma {:induction false} CloseComplete(s: string, seps: seq<string>, stage: nat, k: nat, c: Cuts)
    requires QuotedSeps(seps) && stage < 4 && k <= |s| && HasPrefixAt(s, k, seps[stage])
    requires stage == 3 ==> c.Eol? && LineEnd(s, k + |seps[stage]|, c.end)
    requires stage < 3 ==> Shaped(c, stage + 1) && Fits(s, seps, stage + 1, k + |seps[stage]|, c)
    ensures Close(s, seps, stage, k).Some?
    ensures stage == 3 ==> Close(s, seps, stage, k) == Some(c)
    ensures stage < 3 ==> Preferred(stage + 1, Close(s, seps, stage, k).value, c)
    decreases 4 - stage, |s| - k, 0
  {
    var j := k + |seps[stage]|;
    if stage < 3 {
      FieldComplete(s, seps, stage + 1, j, j, c);
      assert Close(s, seps, stage, k) == Field(s, seps, stage + 1, j);
    } else {
      LineEndUnique(s, j, LineEndFrom(s, j), c.end);
      assert Close(s, seps, stage, k) == Some(Eol(LineEndFrom(s, j)));
    }
  }

  /** The anchored match at a position where the pattern occurs succeeds with priority over `c`. */
  lemma MatchAtComplete(s: string, p: nat, c: Cuts)
    requires p <= |s| && Shaped(c, 0) && Occurs(s, p, c)
    ensures MatchAt(s, p).Some? && Preferred(0, MatchAt(s, p).value, c)
  {
    var q := p + |Opening|;
    FieldComplete(s, Separators, 0, q, q, c);
  }

  /**
   * Completeness and leftmost priority of the search from `p0`: whenever the pattern
   * occurs at `p`, a match is found, it starts no later than `p`, and if it starts at
   * `p` it has backtracking priority over `c`.
   */
  lemma {:induction false} FindFromComplete(s: string, p0: nat, p: nat, c: Cuts)
    requires p0 <= p <= |s| && Shaped(c, 0) && Occurs(s, p, c)
    ensures FindFrom(s, p0).Some? && FindFrom(s, p0).value.start <= p
    ensures FindFrom(s, p0).value.start == p ==> Preferred(0, FindFrom(s, p0).value.cuts, c)
    decreases p - p0
  {
    if p0 == p {
      MatchAtComplete(s, p, c);
    } else if MatchAt(s, p0).None? {
      FindFromComplete(s, p0 + 1, p, c);
    }
  }

  /**
   * The directive pattern matches a line whenever it occurs in it somewhere; the match
   * found is at the leftmost occurrence and, there, the one a backtracking matcher
   * prefers.
   */
  lemma DirectiveComplete(s: string, p: nat, c: Cuts)
    requires p <= |s| && Shaped(c, 0) && Occurs(s, p, c)
    ensures MatchDirective(s).Some?
    ensures FindDirective(s).value.start <= p
    ensures FindDirective(s).value.start == p ==> Preferred(0, FindDirective(s).value.cuts, c)
  {
    FindFromComplete(s, 0, p, c);
  }

  // ---------------------------------------------------------------------------
  // Round trip for quote-free fields
  // ---------------------------------------------------------------------------

  /** No lazy field of the match from stage `stage` on contains a double quote. */
  predicate QuoteFree(s: string, seps: seq<string>, stage: nat, q: nat, c: Cuts)
    requires QuotedSeps(seps) && stage < 4 && Fits(s, seps, stage, q, c)
    decreases 4 - stage
  {
    NoQuoteBetween(s, q, c.end) && (stage == 3 || QuoteFree(s, seps, stage + 1, c.end + |seps[stage]|, c.next))
  }

  /** With quote-free lazy fields, the scan finds exactly the match `c`. */
  lemma {:induction false} FieldQuoteFree(s: string, seps: seq<string>, stage: nat, q: nat, k: nat, c: Cuts)
    requires QuotedSeps(seps) && stage < 4 && Fits(s, seps, stage, q, c)
    requires q <= k <= c.end && QuoteFree(s, seps, stage, q, c)
    ensures Field(s, seps, stage, k) == Some(c)
    decreases 4 - stage, |s| - k, 1
  {
    if k == c.end {
      CloseQuoteFree(s, seps, stage, k, c.next);
    } else {
      assert s[k] != '"';
      QuoteBlocksSeparator(s, seps[stage], k);
      FieldQuoteFree(s, seps, stage, q, k + 1, c);
    }
  }

  /** A separator opening with a quote does not occur where the line has another character. */
  lemma QuoteBlocksSeparator(s: string, t: string, k: nat)
    requires k < |s| && s[k] != '"' && |t| > 0 && t[0] == '"'
    ensures !HasPrefixAt(s, k, t)
  {
  }

  lemma {:induction false} CloseQuoteFree(s: string, seps: seq<string>, stage: nat, k: nat, c: Cuts)
    requires QuotedSeps(seps) && stage < 4 && k <= |s| && HasPrefixAt(s, k, seps[stage])
    requires stage == 3 ==> c.Eol? && LineEnd(s, k + |seps[stage]|, c.end)
    requires stage < 3 ==> Fits(s, seps, stage + 1, k + |seps[stage]|, c)
    requires stage < 3 ==> QuoteFree(s, seps, stage + 1, k + |seps[stage]|, c)
    ensures Close(s, seps, stage, k) == Some(c)
    decreases 4 - stage, |s| - k, 0
  {
    var j := k + |seps[stage]|;
    if stage < 3 {
      FieldQuoteFree(s, seps, stage + 1, j, j, c);
      assert Close(s, seps, stage, k) == Field(s, seps, stage + 1, j);
    } else {
      LineEndUnique(s, j, LineEndFrom(s, j), c.end);
      assert Close(s, seps, stage, k) == Some(Eol(LineEndFrom(s, j)));
    }
  }

  /** The parts of a text, one after another. */
  function Concat(parts: seq<string>): string
    decreases |parts|
  {
    if parts == [] then [] else parts[0] + Concat(parts[1..])
  }

  /** Where part `i` starts in `Concat(parts)`: the length of the parts before it. */
  function Offset(parts: seq<string>, i: nat): nat
    requires i <= |parts|
  {
    if i == 0 then 0 else Offset(parts, i - 1) + |parts[i - 1]|
  }

  /**
   * `t` occurs in `s` at position `k`, stated position by position of `s`; the same
   * as `HasPrefixAt`, in the form the proofs about laid-out lines use.
   */
  predicate Placed(s: string, k: nat, t: string) {
    k + |t| <= |s| && forall i :: k <= i < k + |t| ==> s[i] == t[i - k]
  }

  lemma PlacedPrefix(s: string, k: nat, t: string)
    requires Placed(s, k, t)
    ensures HasPrefixAt(s, k, t)
  {
    forall i | 0 <= i < |t|
      ensures s[k + i] == t[i]
    {
      assert s[k + i] == t[k + i - k];
    }
  }

  /** A placed concatenation places both its parts. */
  lemma PlacedSplit(s: string, q: nat, a: string, b: string)
    requires Placed(s, q, a + b)
    ensures Placed(s, q, a) && Placed(s, q + |a|, b)
  {
    forall i | q <= i < q + |a|
      ensures s[i] == a[i - q]
    {
      assert s[i] == (a + b)[i - q];
    }
    forall i | q + |a| <= i < q + |a| + |b|
      ensures s[i] == b[i - (q + |a|)]
    {
      assert s[i] == (a + b)[i - q];
    }
  }

  /** A text placed in `b` is placed, further on, in `a + b`. */
  lemma PlacedShift(a: string, b: string, k: nat, t: string)
    requires Placed(b, k, t)
    ensures Placed(a + b, |a| + k, t)
  {
    forall i | |a| + k <= i < |a| + k + |t|
      ensures (a + b)[i] == t[i - (|a| + k)]
    {
      assert (a + b)[i] == b[i - |a|];
    }
  }

  lemma {:induction false} OffsetTail(parts: seq<string>, i: nat)
    requires 0 < i <= |parts|
    ensures Offset(parts, i) == |parts[0]| + Offset(parts[1..], i - 1)
  {
    if i > 1 {
      OffsetTail(parts, i - 1);
      assert parts[1..][i - 2] == parts[i - 1];
    }
  }

  /** The parts fill their concatenation exactly. */
  lemma {:induction false} ConcatLength(parts: seq<string>)
    ensures |Concat(parts)| == Offset(parts, |parts|)
    decreases |parts|
  {
    if parts != [] {
      ConcatLength(parts[1..]);
      OffsetTail(parts, |parts|);
    }
  }

  /** Each part stands in the concatenation at its offset. */
  lemma {:induction false} ConcatPlaced(parts: seq<string>, i: nat)
    requires i < |parts|
    ensures Placed(Concat(parts), Offset(parts, i), parts[i])
    decreases |parts|
  {
    var s := Concat(parts);
    if i == 0 {
      assert Placed(s, 0, parts[0] + Concat(parts[1..]));
      PlacedSplit(s, 0, parts[0], Concat(parts[1..]));
    } else {
      ConcatPlaced(parts[1..], i - 1);
      PlacedShift(parts[0], Concat(parts[1..]), Offset(parts[1..], i - 1), parts[i]);
      OffsetTail(parts, i);
    }
  }

  lemma PlacedNoNewline(s: string, q: nat, a: string)
    requires Placed(s, q, a) && NoNewline(a)
    ensures NoNewlineBetween(s, q, q + |a|)
  {
    forall i | q <= i < q + |a|
      ensures s[i] != '\n'
    {
      assert s[i] == a[i - q];
    }
  }

  lemma PlacedNoQuote(s: string, q: nat, a: string)
    requires Placed(s, q, a) && NoQuote(a)
    ensures NoQuoteBetween(s, q, q + |a|)
  {
    forall i | q <= i < q + |a|
      ensures s[i] != '"'
    {
      assert s[i] == a[i - q];
    }
  }

  lemma PlacedSlice(s: string, q: nat, t: string)
    requires Placed(s, q, t)
    ensures s[q..q + |t|] == t
  {
    forall i | 0 <= i < |t|
      ensures s[q..q + |t|][i] == t[i]
    {
      assert s[q..q + |t|][i] == s[q + i];
    }
  }

  /**
   * One lazy value `a` at `q`, ending at `k`, then its separator, then a match of the
   * later stages from `j`: the pattern matches from stage `stage`, with quote-free
   * fields when `a` and the later fields are, and the first group is `a`.
   */
  lemma StepMatch(s: string, seps: seq<string>, stage: nat, q: nat, a: string, k: nat, j: nat, next: Cuts)
    requires QuotedSeps(seps) && stage < 3 && k == q + |a| && j == k + |seps[stage]|
    requires Placed(s, q, a) && NoNewline(a) && Placed(s, k, seps[stage])
    requires Fits(s, seps, stage + 1, j, next)
    ensures Fits(s, seps, stage, q, Cut(k, next))
    ensures NoQuote(a) && QuoteFree(s, seps, stage + 1, j, next) ==> QuoteFree(s, seps, stage, q, Cut(k, next))
  {
    PlacedNoNewline(s, q, a);
    PlacedPrefix(s, k, seps[stage]);
    if NoQuote(a) {
      PlacedNoQuote(s, q, a);
    }
  }

  /**
   * The last lazy value `a` at `q`, ending at `k`, its separator, then the rest `e`
   * from `j` up to the end of the line.
   */
  lemma LastMatch(s: string, seps: seq<string>, q: nat, a: string, k: nat, j: nat, e: string)
    requires QuotedSeps(seps) && k == q + |a| && j == k + |seps[3]| && j + |e| == |s|
    requires Placed(s, q, a) && NoNewline(a) && Placed(s, k, seps[3])
    requires Placed(s, j, e) && NoNewline(e)
    ensures Fits(s, seps, 3, q, Cut(k, Eol(|s|)))
    ensures NoQuote(a) ==> QuoteFree(s, seps, 3, q, Cut(k, Eol(|s|)))
  {
    PlacedNoNewline(s, q, a);
    PlacedPrefix(s, k, seps[3]);
    PlacedNoNewline(s, j, e);
    if NoQuote(a) {
      PlacedNoQuote(s, q, a);
    }
  }

  /** `s` is made of the ten parts `p`, each standing at its offset. */
  predicate Layout(s: string, p: seq<string>)
    requires |p| == 10
  {
    |s| == Offset(p, 10) && forall n :: 0 <= n < 10 ==> Placed(s, Offset(p, n), p[n])
  }

  lemma ConcatLayout(p: seq<string>)
    requires |p| == 10
    ensures Layout(Concat(p), p)
  {
    ConcatLength(p);
    forall n | 0 <= n < 10
      ensures Placed(Concat(p), Offset(p, n), p[n])
    {
      ConcatPlaced(p, n);
    }
  }

  /** `StepMatch` on a line made of parts: lazy value `2 * stage + 1`, then its separator. */
  lemma PartsStep(s: string, p: seq<string>, seps: seq<string>, stage: nat, next: Cuts)
    requires QuotedSeps(seps) && stage < 3 && |p| == 10 && Layout(s, p)
    requires p[2 * stage + 2] == seps[stage] && NoNewline(p[2 * stage + 1])
    requires Fits(s, seps, stage + 1, Offset(p, 2 * stage + 3), next)
    ensures Fits(s, seps, stage, Offset(p, 2 * stage + 1), Cut(Offset(p, 2 * stage + 2), next))
    ensures NoQuote(p[2 * stage + 1]) && QuoteFree(s, seps, stage + 1, Offset(p, 2 * stage + 3), next) ==>
              QuoteFree(s, seps, stage, Offset(p, 2 * stage + 1), Cut(Offset(p, 2 * stage + 2), next))
  {
    var n := 2 * stage + 1;
    assert Placed(s, Offset(p, n), p[n]);
    assert Placed(s, Offset(p, n + 1), p[n + 1]);
    StepMatch(s, seps, stage, Offset(p, n), p[n], Offset(p, n + 1), Offset(p, n + 2), next);
  }

  /** `LastMatch` on a line made of parts: lazy value 7, separator 8, the rest of the line 9. */
  lemma PartsLast(s: string, p: seq<string>, seps: seq<string>)
    requires QuotedSeps(seps) && |p| == 10 && Layout(s, p)
    requires p[8] == seps[3] && NoNewline(p[7]) && NoNewline(p[9])
    ensures Fits(s, seps, 3, Offset(p, 7), Cut(Offset(p, 8), Eol(Offset(p, 10))))
    ensures NoQuote(p[7]) ==> QuoteFree(s, seps, 3, Offset(p, 7), Cut(Offset(p, 8), Eol(Offset(p, 10))))
  {
    assert Placed(s, Offset(p, 7), p[7]);
    assert Placed(s, Offset(p, 8), p[8]);
    assert Placed(s, Offset(p, 9), p[9]);
    LastMatch(s, seps, Offset(p, 7), p[7], Offset(p, 8), Offset(p, 9), p[9]);
  }

  /** The group ends on a line made of ten parts: the ends of lazy values 1, 3, 5, 7 and of the line. */
  function PartsCuts(p: seq<string>): Cuts
    requires |p| == 10
  {
    Cut(Offset(p, 2), Cut(Offset(p, 4), Cut(Offset(p, 6), Cut(Offset(p, 8), Eol(Offset(p, 10))))))
  }

  /**
   * On a line made of an opening part, then lazy values each followed by its separator,
   * then the rest of the line, all single-line, the pattern from stage 0 matches after
   * the opening part with the layout's group ends, and its lazy fields are quote-free
   * when the lazy values are.
   */
  lemma PartsMatch(s: string, p: seq<string>, seps: seq<string>)
    requires QuotedSeps(seps) && |p| == 10 && Layout(s, p)
    requires p[2] == seps[0] && p[4] == seps[1] && p[6] == seps[2] && p[8] == seps[3]
    requires NoNewline(p[1]) && NoNewline(p[3]) && NoNewline(p[5]) && NoNewline(p[7]) && NoNewline(p[9])
    ensures Fits(s, seps, 0, Offset(p, 1), PartsCuts(p))
    ensures NoQuote(p[1]) && NoQuote(p[3]) && NoQuote(p[5]) && NoQuote(p[7]) ==>
              QuoteFree(s, seps, 0, Offset(p, 1), PartsCuts(p))
  {
    var c3 := Cut(Offset(p, 8), Eol(Offset(p, 10)));
    PartsLast(s, p, seps);
    var c2 := Cut(Offset(p, 6), c3);
    PartsStep(s, p, seps, 2, c3);
    var c1 := Cut(Offset(p, 4), c2);
    PartsStep(s, p, seps, 1, c2);
    PartsStep(s, p, seps, 0, c1);
    assert PartsCuts(p) == Cut(Offset(p, 2), c1);
  }

  /** The layout's group ends are in order within the line. */
  lemma PartsBounded(s: string, p: seq<string>, seps: seq<string>)
    requires |seps| == 4 && |p| == 10 && |s| == Offset(p, 10)
    requires p[2] == seps[0] && p[4] == seps[1] && p[6] == seps[2] && p[8] == seps[3]
    ensures Bounded(s, seps, Offset(p, 1), PartsCuts(p))
  {
    assert Offset(p, 2) == Offset(p, 1) + |p[1]| && Offset(p, 3) == Offset(p, 2) + |p[2]|;
    assert Offset(p, 4) == Offset(p, 3) + |p[3]| && Offset(p, 5) == Offset(p, 4) + |p[4]|;
    assert Offset(p, 6) == Offset(p, 5) + |p[5]| && Offset(p, 7) == Offset(p, 6) + |p[6]|;
    assert Offset(p, 8) == Offset(p, 7) + |p[7]| && Offset(p, 9) == Offset(p, 8) + |p[8]|;
    assert Offset(p, 10) == Offset(p, 9) + |p[9]|;
  }

  /** The groups of the layout's match are the lazy values and the rest of the line. */
  lemma PartsGroups(s: string, p: seq<string>, seps: seq<string>)
    requires |seps| == 4 && |p| == 10 && Layout(s, p)
    requires p[2] == seps[0] && p[4] == seps[1] && p[6] == seps[2] && p[8] == seps[3]
    requires Bounded(s, seps, Offset(p, 1), PartsCuts(p))
    ensures Groups(s, seps, Offset(p, 1), PartsCuts(p)) == Fields(p[1], p[3], p[5], p[7], p[9])
  {
    var c := PartsCuts(p);
    var c1, c2, c3 := c.next, c.next.next, c.next.next.next;
    LayoutSlice(s, p, 1);
    LayoutSlice(s, p, 3);
    LayoutSlice(s, p, 5);
    LayoutSlice(s, p, 7);
    LayoutSlice(s, p, 9);
    assert c.end + |seps[0]| == Offset(p, 3) && c1.end + |seps[1]| == Offset(p, 5);
    assert c2.end + |seps[2]| == Offset(p, 7) && c3.end + |seps[3]| == Offset(p, 9);
  }

  lemma LayoutSlice(s: string, p: seq<string>, n: nat)
    requires |p| == 10 && Layout(s, p) && n < 10
    ensures Offset(p, n + 1) <= |s| && s[Offset(p, n)..Offset(p, n + 1)] == p[n]
  {
    assert Placed(s, Offset(p, n), p[n]);
    PlacedSlice(s, Offset(p, n), p[n]);
  }

  /**
   * The parts of a directive line: the opening text `o`, then each lazy value of `v`
   * followed by its separator, then the rest of the line.
   */
  function LineParts(o: string, seps: seq<string>, v: seq<string>): (p: seq<string>)
    requires |seps| == 4 && |v| == 5
    ensures |p| == 10 && p[0] == o && p[9] == v[4]
    ensures forall i :: 0 <= i < 4 ==> p[2 * i + 1] == v[i] && p[2 * i + 2] == seps[i]
  {
    [o, v[0], seps[0], v[1], seps[1], v[2], seps[2], v[3], seps[3], v[4]]
  }

  /**
   * On a line laid out from `o`, `seps` and `v` with single-line values, the pattern
   * from stage 0 matches after `o`, its groups are those of `v`, and its lazy fields are
   * quote-free when the four lazy values are.
   */
  lemma LineMatch(o: string, seps: seq<string>, v: seq<string>)
    requires QuotedSeps(seps) && |v| == 5
    requires NoNewline(v[0]) && NoNewline(v[1]) && NoNewline(v[2]) && NoNewline(v[3]) && NoNewline(v[4])
    ensures var p := LineParts(o, seps, v);
            && HasPrefixAt(Concat(p), 0, o) && Offset(p, 1) == |o| && Fits(Concat(p), seps, 0, |o|, PartsCuts(p))
            && (NoQuote(v[0]) && NoQuote(v[1]) && NoQuote(v[2]) && NoQuote(v[3]) ==>
                  QuoteFree(Concat(p), seps, 0, |o|, PartsCuts(p)))
            && Groups(Concat(p), seps, |o|, PartsCuts(p)) == Fields(v[0], v[1], v[2], v[3], v[4])
  {
    var p := LineParts(o, seps, v);
    ConcatLayout(p);
    assert Placed(Concat(p), Offset(p, 0), p[0]);
    PlacedPrefix(Concat(p), 0, o);
    assert p[1] == v[0] && p[3] == v[1] && p[5] == v[2] && p[7] == v[3];
    assert p[2] == seps[0] && p[4] == seps[1] && p[6] == seps[2] && p[8] == seps[3];
    PartsMatch(Concat(p), p, seps);
    ConcatLength(p);
    PartsBounded(Concat(p), p, seps);
    PartsGroups(Concat(p), p, seps);
  }

  /** The directive line that carries `f`: the opening text, then the fields and separators. */
  function DirectiveLine(f: Fields): string {
    Concat(LineParts(Opening, Separators, AsSeq(f)))
  }

  lemma SeparatorsQuoted()
    ensures QuotedSeps(Separators)
  {
  }

  /**
   * Extraction round trip: on the line built from `f`, with no double quote in the
   * four quoted values and no newline anywhere, the pattern matches at the start of
   * the line and captures exactly `f`.
   */
  lemma DirectiveRoundTrip(f: Fields)
    requires NoQuote(f.id) && NoQuote(f.name) && NoQuote(f.logo) && NoQuote(f.group)
    requires NoNewline(f.id) && NoNewline(f.name) && NoNewline(f.logo)
    requires NoNewline(f.group) && NoNewline(f.otherName)
    ensures FindDirective(DirectiveLine(f)).Some? && FindDirective(DirectiveLine(f)).value.start == 0
    ensures MatchDirective(DirectiveLine(f)) == Some(f)
  {
    SeparatorsQuoted();
    var s := DirectiveLine(f);
    var v := AsSeq(f);
    var q := |Opening|;
    var c := PartsCuts(LineParts(Opening, Separators, v));
    LineMatch(Opening, Separators, v);
    FieldQuoteFree(s, Separators, 0, q, q, c);
    assert MatchAt(s, 0) == Some(c);
    assert FindDirective(s) == Some(DirectiveMatch(0, c));
  }

  /** Parts of a list from `k` on: part `k`, then the parts after it. */
  lemma ConcatFrom(p: seq<string>, k: nat)
    requires k < |p|
    ensures Concat(p[k..]) == p[k] + Concat(p[k + 1..])
  {
    assert p[k..][1..] == p[k + 1..];
  }

  /** Ten parts joined, nested to the right. */
  lemma ConcatTen(p: seq<string>)
    requires |p| == 10
    ensures Concat(p) == p[0] + (p[1] + (p[2] + (p[3] + (p[4] + (p[5] + (p[6] + (p[7] + (p[8] + p[9]))))))))
  {
    assert p[10..] == [];
    ConcatFrom(p, 9);
    var t9 := Concat(p[9..]);
    assert t9 == p[9];
    ConcatFrom(p, 8);
    ConcatFrom(p, 7);
    ConcatFrom(p, 6);
    ConcatFrom(p, 5);
    ConcatFrom(p, 4);
    ConcatFrom(p, 3);
    ConcatFrom(p, 2);
    ConcatFrom(p, 1);
    ConcatFrom(p, 0);
    assert p[0..] == p;
  }

  /** The directive line of `f`, written out: the opening text, then fields and separators. */
  lemma DirectiveLineText(f: Fields)
    ensures DirectiveLine(f)
            == Opening + (f.id + Separators[0] + f.name + Separators[1] + f.logo + Separators[2]
                          + f.group + Separators[3] + f.otherName)
  {
    var p := LineParts(Opening, Separators, AsSeq(f));
    ConcatTen(p);
    assert p == [Opening, f.id, Separators[0], f.name, Separators[1], f.logo, Separators[2], f.group, Separators[3], f.otherName];
    RegroupRight(f.id, Separators[0], f.name, Separators[1], f.logo, Separators[2], f.group, Separators[3], f.otherName);
  }

  /** An occurrence at `p` is the directive line of its groups. */
  lemma OccurrenceText(s: string, p: nat, c: Cuts)
    requires Occurs(s, p, c)
    ensures Bounded(s, Separators, p + |Opening|, c) && p <= c.next.next.next.next.end <= |s|
    ensures DirectiveLine(Groups(s, Separators, p + |Opening|, c)) == s[p..c.next.next.next.next.end]
  {
    SeparatorsQuoted();
    var q := p + |Opening|;
    FitsBounded(s, Separators, q, c);
    var e := c.next.next.next.next.end;
    DirectiveLineText(Groups(s, Separators, q, c));
    SpanStep(s, p, p, Opening, e);
    assert s[p..p] == [];
  }

  /**
   * Printing round trip: on any line where the pattern matches, the directive line built
   * from the captured fields is exactly the matched text, from the match start to the end
   * of the line's rest.
   */
  lemma DirectivePrintBack(s: string)
    ensures MatchDirective(s).Some? ==>
              var m := FindDirective(s).value;
              m.start <= m.cuts.next.next.next.next.end <= |s|
              && DirectiveLine(MatchDirective(s).value) == s[m.start..m.cuts.next.next.next.next.end]
  {
    if MatchDirective(s).Some? {
      DirectiveSound(s);
      var m := FindDirective(s).value;
      OccurrenceText(s, m.start, m.cuts);
    }
  }

  /** A match starts with the opening text, whose first character is `#`. */
  lemma MatchStartsOpening(s: string)
    ensures FindDirective(s).Some? ==>
              var p := FindDirective(s).value.start;
              p < |s| && s[p] == '#' && HasPrefixAt(s, p, Opening)
  {
    DirectiveSound(s);
    if FindDirective(s).Some? {
      var p := FindDirective(s).value.start;
      assert s[p] == Opening[0];
    }
  }

  /** A line with no `#` after its first character and not starting the pattern never matches. */
  lemma NoDirectiveWithoutOpening(s: string)
    requires forall i :: 0 < i < |s| ==> s[i] != '#'
    requires !HasPrefixAt(s, 0, Opening)
    ensures MatchDirective(s).None?
  {
    MatchStartsOpening(s);
  }
}
