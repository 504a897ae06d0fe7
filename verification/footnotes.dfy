/** The annotator's bookkeeping: construction, `attempt`, `cite` with
    `appendFootnote`, `clear`, and the per-element loop of `apply`. The
    document is abstract: a cited element is its identity and its two
    attributes, the footnote container is the list of its children, and the
    `noted` class is a set of element identities. */
module Footnotes {
  import opened Results
  import Charsets
  import Numbering
  import Sequences

  /** A child of the footnote container: an entry this annotator appended
      (its identifier label and its URL text), or any other child a
      caller-supplied container already held, with the texts of the
      `.footnoteUrl` elements inside it, in document order. */
  datatype Entry = Footnote(identifier: string, url: string) | Foreign(urls: seq<string>)

  /** A cited element: its identity and the values `get('cite')` and
      `get('href')` return for it (`None` for `null`). */
  datatype Citation = Citation(id: nat, cite: Option<string>, href: Option<string>)

  /** A reference marker, with the identifier it shows and the URL it stands for. */
  datatype Marker = Marker(element: nat, identifier: string, url: string)

  /** The annotator: the resolved charset, the container's children, the cached
      list of known URLs (`footnoteUrls`), and the elements marked `noted`. */
  datatype Annotator = Annotator(charset: seq<string>, container: seq<Entry>, cache: seq<string>, noted: set<nat>)

  datatype Error = TargetNotFound | IncorrectCharsetUsage

  /** The constructor's options object; `footnoteContainer` is the children of
      an existing container element, or `None` when none is found. */
  datatype Options = Options(charset: Charsets.CharsetOption, footnoteContainer: Option<seq<Entry>>)

  /** The constructor. A missing target is reported first; an existing
      container keeps its children, otherwise a new empty one is used; the
      URL cache starts empty. `noted` is the set of elements that already
      carry the `noted` class, which the constructor leaves alone. `options`
      is `None` when the argument is absent or not an object. */
  function New(targetFound: bool, options: Option<Options>, noted: set<nat>): (r: Result<Annotator, Error>)
    ensures !targetFound ==> r == Err(TargetNotFound)
    ensures targetFound && options.Some? && options.value.charset.OtherOption? ==> r == Err(IncorrectCharsetUsage)
    ensures r.Ok? <==> targetFound && !(options.Some? && options.value.charset.OtherOption?)
    ensures r.Ok? ==> r.value.cache == [] && r.value.noted == noted
    ensures r.Ok? && options.None? ==> r.value.charset == Charsets.Alpha && r.value.container == []
    ensures r.Ok? && options.Some? ==>
              Some(r.value.charset) == Charsets.Resolve(options.value.charset) &&
              r.value.container == (if options.value.footnoteContainer.Some? then options.value.footnoteContainer.value else [])
  {
    if !targetFound then Err(TargetNotFound)
    else
      var container := if options.Some? && options.value.footnoteContainer.Some? then options.value.footnoteContainer.value else [];
      var charset := Charsets.Resolve(if options.Some? then options.value.charset else Charsets.Unset);
      if charset.None? then Err(IncorrectCharsetUsage)
      else Ok(Annotator(charset.value, container, [], noted))
  }

  /** The `.footnoteUrl` texts inside one child of the container. */
  function ChildUrls(e: Entry): seq<string>
  {
    match e
    case Footnote(_, url) => [url]
    case Foreign(urls) => urls
  }

  /** What re-reading the `.footnoteUrl` texts of the container yields: the
      URLs inside its children, child by child. */
  function FootnoteUrls(container: seq<Entry>): (urls: seq<string>)
    ensures (forall i :: 0 <= i < |container| ==> container[i].Footnote?) ==> |urls| == |container|
  {
    if |container| == 0 then []
    else
      var init := container[..|container| - 1];
      var last := container[|container| - 1];
      assert forall i :: 0 <= i < |init| ==> init[i] == container[i];
      FootnoteUrls(init) + ChildUrls(last)
  }

  /** A URL is re-read from the container exactly when some child holds it. */
  lemma {:induction false} FootnoteUrlsMembers(container: seq<Entry>, u: string)
    ensures u in FootnoteUrls(container) <==> exists i :: 0 <= i < |container| && u in ChildUrls(container[i])
    decreases |container|
  {
    if |container| > 0 {
      var init := container[..|container| - 1];
      FootnoteUrlsMembers(init, u);
      if u in FootnoteUrls(container) && u !in ChildUrls(container[|container| - 1]) {
        var i :| 0 <= i < |init| && u in ChildUrls(init[i]);
        assert init[i] == container[i];
      }
    }
  }

  /** Appending a footnote entry appends its URL to the re-read list. */
  lemma FootnoteUrlsAppend(container: seq<Entry>, e: Entry)
    requires e.Footnote?
    ensures FootnoteUrls(container + [e]) == FootnoteUrls(container) + [e.url]
  {
    assert (container + [e])[..|container|] == container;
  }

  /** JavaScript's `Array.indexOf`: the first position holding `x`, or -1. */
  function IndexOf(xs: seq<string>, x: string): (i: int)
    ensures -1 <= i < |xs|
    ensures i == -1 <==> x !in xs
    ensures 0 <= i ==> xs[i] == x && x !in xs[..i]
  {
    if |xs| == 0 then -1
    else if xs[0] == x then 0
    else
      var j := IndexOf(xs[1..], x);
      if j == -1 then -1
      else
        assert xs[..j + 1] == [xs[0]] + xs[1..][..j];
        j + 1
  }

  /** `appendFootnote`: a new entry whose identifier is computed from the
      container's current number of children. */
  function AppendFootnote(s: Annotator, url: string): (container: seq<Entry>)
    ensures |container| == |s.container| + 1
    ensures container[..|s.container|] == s.container
    ensures container[|s.container|..] == [Footnote(Numbering.Label(s.charset, |s.container|), url)]
  {
    s.container + [Footnote(Numbering.Label(s.charset, |s.container|), url)]
  }

  /** `cite`: look the URL up in the cache; if it is unknown, append an entry
      and refresh the cache from the container, and use the last cached
      position; then build the marker and mark the element `noted`. */
  function Cite(s: Annotator, el: nat, url: string): (r: (Annotator, Marker))
    ensures r.0.charset == s.charset && r.0.noted == s.noted + {el}
    ensures r.1.element == el && r.1.url == url
    ensures url in s.cache ==>
              r.0.container == s.container && r.0.cache == s.cache &&
              r.1.identifier == Numbering.Label(s.charset, IndexOf(s.cache, url))
    ensures url !in s.cache ==>
              && |r.0.container| == |s.container| + 1
              && r.0.container[..|s.container|] == s.container
              && r.0.container[|s.container|] == Footnote(Numbering.Label(s.charset, |s.container|), url)
              && r.0.cache == FootnoteUrls(s.container) + [url]
              && r.1.identifier == Numbering.Label(s.charset, |FootnoteUrls(s.container)|)
  {
    var found := IndexOf(s.cache, url);
    if found < 0 then
      var entry := Footnote(Numbering.Label(s.charset, |s.container|), url);
      var container := AppendFootnote(s, url);
      assert container == s.container + [entry];
      var cache := FootnoteUrls(container);
      FootnoteUrlsAppend(s.container, entry);
      var num := |cache| - 1;
      assert num == |FootnoteUrls(s.container)|;
      (Annotator(s.charset, container, cache, s.noted + {el}), Marker(el, Numbering.Label(s.charset, num), url))
    else
      (Annotator(s.charset, s.container, s.cache, s.noted + {el}), Marker(el, Numbering.Label(s.charset, found), url))
  }

  /** The URL an element cites: the value of `get('cite')` whenever it is
      non-null, even the empty string, else that of `get('href')`. */
  function CitedUrl(c: Citation): Option<string>
  {
    if c.cite.Some? then c.cite else c.href
  }

  /** `attempt`: skip an element already `noted` or without either attribute;
      otherwise cite it. */
  function Attempt(s: Annotator, c: Citation): (r: (Annotator, Option<Marker>))
    ensures c.id in s.noted ==> r == (s, None)
    ensures c.cite.None? && c.href.None? ==> r == (s, None)
    ensures c.id !in s.noted && c.cite.Some? ==>
              r == (Cite(s, c.id, c.cite.value).0, Some(Cite(s, c.id, c.cite.value).1))
    ensures c.id !in s.noted && c.cite.None? && c.href.Some? ==>
              r == (Cite(s, c.id, c.href.value).0, Some(Cite(s, c.id, c.href.value).1))
    ensures r.1.Some? ==> r.0.noted == s.noted + {c.id} && r.1.value.element == c.id
  {
    if c.id in s.noted then (s, None)
    else
      var url := CitedUrl(c);
      if url.None? then (s, None)
      else
        var cited := Cite(s, c.id, url.value);
        (cited.0, Some(cited.1))
  }

  /** The loop of `apply` over the citations, already in document order. */
  function Apply(s: Annotator, cs: seq<Citation>): (r: (Annotator, seq<Marker>))
    ensures r.0.charset == s.charset
    ensures s.noted <= r.0.noted
    ensures forall i :: 0 <= i < |cs| && CitedUrl(cs[i]).Some? ==> cs[i].id in r.0.noted
    decreases |cs|
  {
    if |cs| == 0 then (s, [])
    else
      var first := Attempt(s, cs[0]);
      var rest := Apply(first.0, cs[1..]);
      (rest.0, (if first.1.Some? then [first.1.value] else []) + rest.1)
  }

  /** `clear`: empty the container and drop the `noted` mark of every element
      inside the target (`inTarget`). The URL cache is left as it was. */
  function Clear(s: Annotator, inTarget: set<nat>): (r: Annotator)
    ensures r.container == [] && r.cache == s.cache && r.charset == s.charset
    ensures r.noted == s.noted - inTarget
  {
    Annotator(s.charset, [], s.cache, s.noted - inTarget)
  }

  /** The container and the cache agree: entry `i` carries the identifier of
      index `i` and the `i`-th cached URL, and no URL is cached twice. */
  ghost predicate Consistent(s: Annotator)
  {
    && |s.container| == |s.cache|
    && (forall i :: 0 <= i < |s.container| ==> s.container[i] == Footnote(Numbering.Label(s.charset, i), s.cache[i]))
    && Sequences.Distinct(s.cache)
  }

  /** A freshly built annotator with a new (empty) container is consistent. */
  lemma NewIsConsistent(options: Option<Options>, noted: set<nat>)
    requires options.Some? ==> options.value.footnoteContainer.None?
    ensures New(true, options, noted).Ok? ==> Consistent(New(true, options, noted).value)
  {
  }

  /** Re-reading a container of footnote entries yields their URLs in order. */
  lemma {:induction false} FootnoteUrlsOfEntries(container: seq<Entry>)
    requires forall i :: 0 <= i < |container| ==> container[i].Footnote?
    ensures |FootnoteUrls(container)| == |container|
    ensures forall i :: 0 <= i < |container| ==> FootnoteUrls(container)[i] == container[i].url
    decreases |container|
  {
    if |container| > 0 {
      var init := container[..|container| - 1];
      FootnoteUrlsOfEntries(init);
    }
  }

  /** In a consistent annotator, re-reading the container gives the cache back. */
  lemma ConsistentCacheIsFresh(s: Annotator)
    requires Consistent(s)
    ensures FootnoteUrls(s.container) == s.cache
  {
    FootnoteUrlsOfEntries(s.container);
  }

  /** The cache after registering `url`: unchanged when it is known, extended
      by it otherwise. */
  function Register(cache: seq<string>, url: string): seq<string>
  {
    if url in cache then cache else cache + [url]
  }

  /** From a consistent annotator, `cite` keeps the container and cache
      consistent, registers the URL, and the marker's identifier is the
      identifier of the one entry holding that URL. */
  lemma CiteKeepsConsistent(s: Annotator, el: nat, url: string)
    requires Consistent(s)
    ensures var (s', marker) := Cite(s, el, url);
            && Consistent(s')
            && s'.cache == Register(s.cache, url)
            && 0 <= IndexOf(s'.cache, url) < |s'.container|
            && s'.container[IndexOf(s'.cache, url)] == Footnote(marker.identifier, url)
  {
    if url !in s.cache {
      FirstCitationKeepsConsistent(s, el, url);
    }
  }

  /** The new-URL case of `CiteKeepsConsistent`. */
  lemma FirstCitationKeepsConsistent(s: Annotator, el: nat, url: string)
    requires Consistent(s) && url !in s.cache
    ensures var (s', marker) := Cite(s, el, url);
            && Consistent(s')
            && s'.cache == s.cache + [url]
            && IndexOf(s'.cache, url) == |s'.container| - 1
            && s'.container[|s'.container| - 1] == Footnote(marker.identifier, url)
  {
    FirstCitation(s, el, url);
    AppendKeepsConsistent(s, Cite(s, el, url).0, url);
  }

  /** Appending an entry for a URL not yet cached, labelled by the next
      index, and caching that URL keeps the annotator consistent. */
  lemma AppendKeepsConsistent(s: Annotator, t: Annotator, url: string)
    requires Consistent(s) && url !in s.cache
    requires t.charset == s.charset
    requires t.container == s.container + [Footnote(Numbering.Label(s.charset, |s.container|), url)]
    requires t.cache == s.cache + [url]
    ensures Consistent(t)
  {
    forall i | 0 <= i < |t.container|
      ensures t.container[i] == Footnote(Numbering.Label(t.charset, i), t.cache[i])
    {
      if i < |s.container| {
        assert t.container[i] == s.container[i] && t.cache[i] == s.cache[i];
      }
    }
    forall i, j | 0 <= i < j < |t.cache|
      ensures t.cache[i] != t.cache[j]
    {
      if j == |s.cache| {
        assert t.cache[i] == s.cache[i] && s.cache[i] in s.cache;
      }
    }
  }

  /** The URLs `apply` will register, in order: those of the citations not yet
      `noted` that carry one. */
  function PendingUrls(noted: set<nat>, cs: seq<Citation>): seq<string>
  {
    if |cs| == 0 then []
    else if cs[0].id !in noted && CitedUrl(cs[0]).Some? then [CitedUrl(cs[0]).value] + PendingUrls(noted, cs[1..])
    else PendingUrls(noted, cs[1..])
  }

  /** Registers URLs one after the other: every URL once, in the order of its
      first occurrence, after those already known. */
  function RegisterAll(cache: seq<string>, urls: seq<string>): (r: seq<string>)
    ensures |cache| <= |r| && r[..|cache|] == cache
    ensures Sequences.Distinct(cache) ==> Sequences.Distinct(r)
    ensures forall u :: u in r <==> u in cache || u in urls
    decreases |urls|
  {
    if |urls| == 0 then cache
    else
      var next := Register(cache, urls[0]);
      assert next[..|cache|] == cache;
      var r := RegisterAll(next, urls[1..]);
      assert r[..|cache|] == r[..|next|][..|cache|];
      assert forall u :: u in urls <==> u == urls[0] || u in urls[1..];
      r
  }

  /** Element identities occur at most once, as in the result of a query. */
  predicate DistinctIds(cs: seq<Citation>)
  {
    forall i, j :: 0 <= i < j < |cs| ==> cs[i].id != cs[j].id
  }

  /** Marking an element that does not occur later changes nothing pending. */
  lemma {:induction false} PendingUrlsIgnoreOtherIds(noted: set<nat>, id: nat, cs: seq<Citation>)
    requires forall i :: 0 <= i < |cs| ==> cs[i].id != id
    ensures PendingUrls(noted + {id}, cs) == PendingUrls(noted, cs)
    decreases |cs|
  {
    if |cs| > 0 {
      PendingUrlsIgnoreOtherIds(noted, id, cs[1..]);
    }
  }

  /** Processing distinct citations in order from a consistent annotator keeps
      it consistent, and the container ends up holding each newly cited URL
      once, in the order of first occurrence, after the URLs it already held. */
  lemma {:induction false} ApplyRegistersInOrder(s: Annotator, cs: seq<Citation>)
    requires Consistent(s) && DistinctIds(cs)
    ensures Consistent(Apply(s, cs).0)
    ensures Apply(s, cs).0.cache == RegisterAll(s.cache, PendingUrls(s.noted, cs))
    decreases |cs|
  {
    if |cs| > 0 {
      var c := cs[0];
      var (s1, m) := Attempt(s, c);
      assert DistinctIds(cs[1..]);
      if c.id !in s.noted && CitedUrl(c).Some? {
        assert s1 == Cite(s, c.id, CitedUrl(c).value).0;
        CiteKeepsConsistent(s, c.id, CitedUrl(c).value);
        assert forall i :: 0 <= i < |cs[1..]| ==> cs[1..][i].id != c.id by {
          forall i | 0 <= i < |cs[1..]| ensures cs[1..][i].id != c.id {
            assert cs[1..][i] == cs[i + 1];
          }
        }
        PendingUrlsIgnoreOtherIds(s.noted, c.id, cs[1..]);
      } else {
        assert s1 == s;
      }
      ApplyRegistersInOrder(s1, cs[1..]);
    }
  }

  /** A second pass over the same citations finds every one of them `noted`
      or without a URL: it changes nothing and places no marker. */
  lemma {:induction false} ApplyIdempotent(s: Annotator, cs: seq<Citation>)
    ensures var s' := Apply(s, cs).0;
            Apply(s', cs) == (s', [])
  {
    var s' := Apply(s, cs).0;
    SkipAllNoted(s', cs);
  }

  /** Citations that are all `noted` or without a URL are all skipped. */
  lemma {:induction false} SkipAllNoted(s: Annotator, cs: seq<Citation>)
    requires forall i :: 0 <= i < |cs| && CitedUrl(cs[i]).Some? ==> cs[i].id in s.noted
    ensures Apply(s, cs) == (s, [])
    decreases |cs|
  {
    if |cs| > 0 {
      var first := Attempt(s, cs[0]);
      assert first == (s, None);
      assert forall i :: 0 <= i < |cs[1..]| ==> cs[1..][i] == cs[i + 1];
      SkipAllNoted(s, cs[1..]);
      var rest := Apply(s, cs[1..]);
      var none: seq<Marker> := [];
      assert Apply(s, cs) == (rest.0, none + rest.1);
      assert none + rest.1 == none;
    }
  }

  /** Two elements citing the same new URL produce one entry and two markers
      showing the same identifier, that of the entry. */
  lemma SameUrlSharesEntry(s: Annotator, a: Citation, b: Citation, url: string)
    requires Consistent(s) && url !in s.cache
    requires a.id != b.id && a.id !in s.noted && b.id !in s.noted
    requires CitedUrl(a) == Some(url) && CitedUrl(b) == Some(url)
    ensures var (s', markers) := Apply(s, [a, b]);
            && s'.container == s.container + [Footnote(Numbering.Label(s.charset, |s.container|), url)]
            && |markers| == 2
            && markers[0].identifier == markers[1].identifier == Numbering.Label(s.charset, |s.container|)
  {
    var first := Cite(s, a.id, url);
    var s1 := first.0;
    FirstCitation(s, a.id, url);
    assert Attempt(s, a) == (s1, Some(first.1));
    var second := Cite(s1, b.id, url);
    assert url in s1.cache;
    assert second.0.container == s1.container;
    assert second.1.identifier == Numbering.Label(s.charset, |s.container|);
    assert Attempt(s1, b) == (second.0, Some(second.1));
    assert [a, b][1..] == [b] && [b][1..] == [];
    assert Apply(second.0, []) == (second.0, []);
    var none: seq<Marker> := [];
    assert Apply(s1, [b]) == (Apply(second.0, []).0, [second.1] + Apply(second.0, []).1);
    assert [second.1] + none == [second.1];
    assert Apply(s1, [b]) == (second.0, [second.1]);
    assert Apply(s, [a, b]) == (Apply(s1, [b]).0, [first.1] + Apply(s1, [b]).1);
    assert [first.1] + [second.1] == [first.1, second.1];
  }

  /** The first citation of a new URL in a consistent annotator appends the
      entry at the end of the cache and labels the marker like it. */
  lemma FirstCitation(s: Annotator, el: nat, url: string)
    requires Consistent(s) && url !in s.cache
    ensures var (s', marker) := Cite(s, el, url);
            && s'.container == s.container + [Footnote(Numbering.Label(s.charset, |s.container|), url)]
            && s'.cache == s.cache + [url]
            && IndexOf(s'.cache, url) == |s.container|
            && marker.identifier == Numbering.Label(s.charset, |s.container|)
  {
    ConsistentCacheIsFresh(s);
    var s' := Cite(s, el, url).0;
    assert s'.container == s.container + [Footnote(Numbering.Label(s.charset, |s.container|), url)];
    assert s'.cache[..|s.cache|] == s.cache;
  }

  /** `clear` keeps the stale URL cache: processing again citations whose URLs
      were cited before re-creates no entry at all, so the container stays
      empty while markers still show the old identifiers. Clearing and applying
      again does not reproduce the footnote list. */
  lemma {:induction false} ClearKeepsStaleCache(s: Annotator, inTarget: set<nat>, cs: seq<Citation>)
    requires forall i :: 0 <= i < |cs| && CitedUrl(cs[i]).Some? ==> CitedUrl(cs[i]).value in s.cache
    ensures Apply(Clear(s, inTarget), cs).0.container == []
    ensures Apply(Clear(s, inTarget), cs).0.cache == s.cache
  {
    KnownUrlsAddNothing(Clear(s, inTarget), cs);
  }

  /** Citations of URLs that are all cached leave container and cache alone. */
  lemma {:induction false} KnownUrlsAddNothing(s: Annotator, cs: seq<Citation>)
    requires forall i :: 0 <= i < |cs| && CitedUrl(cs[i]).Some? ==> CitedUrl(cs[i]).value in s.cache
    ensures Apply(s, cs).0.container == s.container
    ensures Apply(s, cs).0.cache == s.cache
    decreases |cs|
  {
    if |cs| > 0 {
      var (s1, m) := Attempt(s, cs[0]);
      assert s1.container == s.container && s1.cache == s.cache;
      KnownUrlsAddNothing(s1, cs[1..]);
    }
  }

  /** A concrete instance: citing one element, clearing, and applying again
      leaves an empty container, where the first pass had one entry. */
  lemma ClearThenApplyLosesEntry()
    ensures var c := Citation(0, Some("http://example.org/"), None);
            var s0 := Annotator(Charsets.Alpha, [], [], {});
            var first := Apply(s0, [c]).0;
            && |first.container| == 1
            && Apply(Clear(first, {0}), [c]).0.container == []
  {
    var c := Citation(0, Some("http://example.org/"), None);
    var s0 := Annotator(Charsets.Alpha, [], [], {});
    assert [c][1..] == [];
    var first := Apply(s0, [c]).0;
    assert Attempt(s0, c).0 == Cite(s0, 0, "http://example.org/").0;
    assert first == Apply(Attempt(s0, c).0, []).0;
    ClearKeepsStaleCache(first, {0}, [c]);
  }

  /** The stale cache lasts only until the first new URL: citing it after
      `clear` re-reads the cache from the emptied container, so the cache
      holds that URL alone and every URL cached before is unknown again. */
  lemma NewUrlAfterClearResetsCache(s: Annotator, inTarget: set<nat>, el: nat, url: string)
    requires url !in s.cache
    ensures var (s', marker) := Cite(Clear(s, inTarget), el, url);
            && s'.container == [Footnote(Numbering.Label(s.charset, 0), url)]
            && s'.cache == [url]
            && marker.identifier == Numbering.Label(s.charset, 0)
            && (forall u :: u in s.cache ==> u !in s'.cache)
  {
    var c := Clear(s, inTarget);
    assert FootnoteUrls(c.container) == [];
    assert Cite(c, el, url).0.container[..0] == [];
  }

  /** A concrete instance: with "old" cached and the container emptied, a new
      URL and then "old" give two entries, the second holding "old". */
  lemma ClearThenNewUrlRecreatesOld()
    ensures var s := Annotator(Charsets.Alpha, [], ["old"], {});
            var r := Apply(s, [Citation(1, Some("new"), None), Citation(2, Some("old"), None)]).0;
            && |r.container| == 2
            && r.container[1].url == "old"
  {
    var s := Annotator(Charsets.Alpha, [], ["old"], {});
    var a := Citation(1, Some("new"), None);
    var b := Citation(2, Some("old"), None);
    var none: seq<Marker> := [];
    NewUrlAfterClearResetsCache(s, {}, 1, "new");
    assert Clear(s, {}) == s;
    var s1 := Attempt(s, a).0;
    assert s1 == Cite(s, 1, "new").0;
    assert s1.cache == ["new"] && "old" !in s1.cache;
    var s2 := Attempt(s1, b).0;
    assert s2 == Cite(s1, 2, "old").0;
    assert |s2.container| == 2 && s2.container[1].url == "old";
    assert [a, b][1..] == [b] && [b][1..] == [];
    assert Apply(s1, [b]).0 == Apply(s2, []).0 == s2;
    assert Apply(s, [a, b]).0 == Apply(s1, [b]).0;
  }

  /** A caller-supplied container skews the numbering: a new entry is
      labelled by the container's child count, its marker by the number of
      `.footnoteUrl` texts inside the container. With a charset of distinct
      single characters the two identifiers agree exactly when those counts
      do, and a container of this annotator's entries only always agrees. */
  lemma ForeignChildSkewsIdentifiers(s: Annotator, el: nat, url: string)
    requires url !in s.cache
    requires Charsets.SingleCharacters(Numbering.Effective(s.charset))
    requires Sequences.Distinct(Numbering.Effective(s.charset))
    ensures var (s', marker) := Cite(s, el, url);
            && (s'.container[|s.container|].identifier == marker.identifier <==>
                  |FootnoteUrls(s.container)| == |s.container|)
            && ((forall i :: 0 <= i < |s.container| ==> s.container[i].Footnote?) ==>
                  s'.container[|s.container|].identifier == marker.identifier)
  {
    Numbering.LabelInjective(s.charset, |FootnoteUrls(s.container)|, |s.container|);
  }

  /** A concrete skew: with the charset a, b, a supplied container whose only
      child holds no footnote URL gives the first new entry "b" and its
      marker "a". */
  lemma ForeignChildExample()
    ensures var s := Annotator(["a", "b"], [Foreign([])], [], {});
            var (s', marker) := Cite(s, 0, "http://example.org/");
            && s'.container[1].identifier == "b"
            && marker.identifier == "a"
  {
    var cs := ["a", "b"];
    var s := Annotator(cs, [Foreign([])], [], {});
    assert FootnoteUrls(s.container) == [] by {
      assert s.container[..0] == [];
    }
    var r := Cite(s, 0, "http://example.org/");
    assert r.0.container[1].identifier == Numbering.Label(cs, 1);
    assert r.1.identifier == Numbering.Label(cs, 0);
    Numbering.LabelOfSmallIndex(cs, 0);
    Numbering.LabelOfSmallIndex(cs, 1);
  }
}
