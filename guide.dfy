/** The guide half of the merger (merge_epg.py, `main`): download names, the
    merge of every chunk's top-level children under one `tv` root, the
    injection of a channel for each playlist alias the guide lacks, the
    output text and the list of temporary files removed at the end. */
module Guide {
  import opened Text
  import opened Playlist

  /** A top-level child of a guide document. Only what the merger reads or
      writes is kept: a channel's `id` attribute (absent in Python is None)
      and its display names; everything else passes through untouched. */
  datatype Element =
    | Channel(id: Option<string>, displayNames: seq<string>)
    | Programme(channel: Option<string>, start: Option<string>)
    | Other(tag: string)

  /** `{ch.get("id") for ch in tv.findall("channel")}`, without the None of a
      channel that has no `id` (no alias id equals it). */
  function ChannelIds(children: seq<Element>): set<string> {
    set i | 0 <= i < |children| && children[i].Channel? && children[i].id.Some? :: children[i].id.value
  }

  lemma {:induction false} ChannelIdsAppend(a: seq<Element>, b: seq<Element>)
    ensures ChannelIds(a + b) == ChannelIds(a) + ChannelIds(b)
  {
    var ab := a + b;
    forall x | x in ChannelIds(ab) ensures x in ChannelIds(a) + ChannelIds(b) {
      var i :| 0 <= i < |ab| && ab[i].Channel? && ab[i].id == Some(x);
      if i >= |a| { assert b[i - |a|] == ab[i]; }
    }
    forall x | x in ChannelIds(b) ensures x in ChannelIds(ab) {
      var i :| 0 <= i < |b| && b[i].Channel? && b[i].id == Some(x);
      assert ab[i + |a|] == b[i];
    }
    forall x | x in ChannelIds(a) ensures x in ChannelIds(ab) {
      var i :| 0 <= i < |a| && a[i].Channel? && a[i].id == Some(x);
      assert ab[i] == a[i];
    }
  }

  /** The merged root `<tv generator-info-name="Unified EPG">`: its children
      are appended to, never edited or removed. */
  class Tv {
    const tag: string
    const generatorInfoName: string
    var children: seq<Element>

    constructor ()
      ensures tag == "tv" && generatorInfoName == "Unified EPG" && children == []
    {
      tag := "tv";
      generatorInfoName := "Unified EPG";
      children := [];
    }

    /** `tv.append(elem)`. */
    method Append(e: Element)
      modifies this
      ensures children == old(children) + [e]
    {
      children := children + [e];
    }

    /** `ET.SubElement(tv, "channel", {"id": id})` holding one `display-name`
        whose text is `name`. */
    method AddChannel(id: string, name: string)
      modifies this
      ensures children == old(children) + [Channel(Some(id), [name])]
    {
      children := children + [Channel(Some(id), [name])];
    }
  }

  /** Every chunk's children, chunk after chunk, each chunk in its own order. */
  function Concat(chunks: seq<seq<Element>>): seq<Element> {
    if chunks == [] then [] else Concat(chunks[..|chunks| - 1]) + chunks[|chunks| - 1]
  }

  /** Concatenation keeps every child of every chunk, duplicates included. */
  lemma {:induction false} ConcatAppend(a: seq<seq<Element>>, b: seq<seq<Element>>)
    ensures Concat(a + b) == Concat(a) + Concat(b)
    decreases |b|
  {
    if b == [] {
      assert a + b == a;
    } else {
      var n := |b| - 1;
      var ab := a + b;
      assert ab[..|ab| - 1] == a + b[..n] && ab[|ab| - 1] == b[n];
      assert Concat(ab) == Concat(a + b[..n]) + b[n];
      ConcatAppend(a, b[..n]);
      assert Concat(b) == Concat(b[..n]) + b[n];
    }
  }

  /** The merged document has exactly as many children as the chunks have together. */
  lemma {:induction false} ConcatLength(chunks: seq<seq<Element>>)
    ensures |Concat(chunks)| == Sizes(chunks)
    decreases |chunks|
  {
    if chunks != [] {
      ConcatLength(chunks[..|chunks| - 1]);
    }
  }

  function Sizes(chunks: seq<seq<Element>>): nat {
    if chunks == [] then 0 else Sizes(chunks[..|chunks| - 1]) + |chunks[|chunks| - 1]|
  }

  /** Step 2 of `main`: a fresh `tv` root holding every top-level child of
      every chunk, in chunk order, without deduplication. */
  method MergeChunks(chunks: seq<seq<Element>>) returns (tv: Tv)
    ensures fresh(tv)
    ensures tv.tag == "tv" && tv.generatorInfoName == "Unified EPG"
    ensures tv.children == Concat(chunks)
  {
    tv := new Tv();
    for i := 0 to |chunks|
      invariant tv.tag == "tv" && tv.generatorInfoName == "Unified EPG"
      invariant tv.children == Concat(chunks[..i])
    {
      var chunk := chunks[i];
      assert chunks[..i + 1][..i] == chunks[..i];
      for j := 0 to |chunk|
        invariant tv.children == Concat(chunks[..i]) + chunk[..j]
      {
        assert chunk[..j + 1] == chunk[..j] + [chunk[j]];
        tv.Append(chunk[j]);
      }
      assert chunk[..|chunk|] == chunk;
    }
    assert chunks[..|chunks|] == chunks;
  }

  /** The channel injected for an alias. */
  function AliasChannel(e: Entry): Element {
    Channel(Some(e.id), [e.name])
  }

  /** The channels step 3 appends, in the alias table's order: one per alias
      whose id is not in `existing`. */
  function Injected(aliases: AliasTable, existing: set<string>): seq<Element> {
    if aliases == [] then []
    else
      (if aliases[0].id !in existing then [AliasChannel(aliases[0])] else [])
      + Injected(aliases[1..], existing)
  }

  lemma {:induction false} InjectedSnoc(aliases: AliasTable, e: Entry, existing: set<string>)
    ensures Injected(aliases + [e], existing) ==
      Injected(aliases, existing) + (if e.id !in existing then [AliasChannel(e)] else [])
    decreases |aliases|
  {
    var tail: seq<Element> := if e.id !in existing then [AliasChannel(e)] else [];
    if aliases == [] {
      assert Injected([e], existing) == tail + Injected([], existing);
    } else {
      var x := aliases[0];
      var head: seq<Element> := if x.id !in existing then [AliasChannel(x)] else [];
      var longer := aliases + [e];
      assert longer[0] == x && longer[1..] == aliases[1..] + [e];
      assert Injected(longer, existing) == head + Injected(aliases[1..] + [e], existing);
      InjectedSnoc(aliases[1..], e, existing);
      assert Injected(aliases, existing) == head + Injected(aliases[1..], existing);
    }
  }

  /** Step 3 of `main`: with `existing` taken once before the loop, a channel
      is appended for every alias whose id is not in it; `added` counts them. */
  method InjectMissing(tv: Tv, aliases: AliasTable) returns (added: nat)
    modifies tv
    ensures tv.children == old(tv.children) + Injected(aliases, ChannelIds(old(tv.children)))
    ensures added == |Injected(aliases, ChannelIds(old(tv.children)))|
  {
    var existing := ChannelIds(tv.children);
    added := 0;
    for i := 0 to |aliases|
      invariant tv.children == old(tv.children) + Injected(aliases[..i], existing)
      invariant added == |Injected(aliases[..i], existing)|
    {
      var e := aliases[i];
      assert aliases[..i + 1] == aliases[..i] + [e];
      InjectedSnoc(aliases[..i], e, existing);
      if e.id !in existing {
        tv.AddChannel(e.id, e.name);
        added := added + 1;
      }
    }
    assert aliases[..|aliases|] == aliases;
  }

  /** The ids of an alias table, as a set. */
  function KeySet(aliases: AliasTable): set<string> {
    set k | k in Keys(aliases)
  }

  lemma KeySetCons(aliases: AliasTable)
    requires aliases != []
    ensures Keys(aliases) == [aliases[0].id] + Keys(aliases[1..])
    ensures KeySet(aliases) == {aliases[0].id} + KeySet(aliases[1..])
  {
  }

  /** With distinct ids, injection adds exactly one channel per alias id
      outside `existing`: |A \ E| of them. */
  lemma {:induction false} InjectedCount(aliases: AliasTable, existing: set<string>)
    requires DistinctKeys(aliases)
    ensures |Injected(aliases, existing)| == |KeySet(aliases) - existing|
    decreases |aliases|
  {
    if aliases != [] {
      var rest := aliases[1..];
      var x := aliases[0].id;
      KeySetCons(aliases);
      assert ([x] + Keys(rest))[1..] == Keys(rest);
      assert DistinctKeys(rest) && x !in KeySet(rest);
      InjectedCount(rest, existing);
      assert |Injected(aliases, existing)| == (if x in existing then 0 else 1) + |Injected(rest, existing)|;
      var before, after := KeySet(rest) - existing, KeySet(aliases) - existing;
      if x !in existing {
        assert after == {x} + before && x !in before;
      } else {
        assert after == before;
      }
    }
  }

  /** The injected channels carry exactly the alias ids outside `existing`. */
  lemma {:induction false} InjectedIds(aliases: AliasTable, existing: set<string>)
    ensures ChannelIds(Injected(aliases, existing)) == KeySet(aliases) - existing
    decreases |aliases|
  {
    if aliases != [] {
      var rest := aliases[1..];
      var x := aliases[0].id;
      var head: seq<Element> := if x !in existing then [AliasChannel(aliases[0])] else [];
      InjectedIds(rest, existing);
      ChannelIdsAppend(head, Injected(rest, existing));
      assert Keys(aliases) == [x] + Keys(rest);
      assert KeySet(aliases) == {x} + KeySet(rest);
      if x !in existing {
        assert ChannelIds(head) == {x} by {
          assert head[0].id == Some(x);
        }
      } else {
        assert ChannelIds(head) == {};
      }
    }
  }

  /** Each injected channel is a channel with one display name: the name the
      alias table gives its id. */
  lemma {:induction false} InjectedNames(aliases: AliasTable, existing: set<string>, i: nat)
    requires DistinctKeys(aliases)
    requires i < |Injected(aliases, existing)|
    ensures Injected(aliases, existing)[i].Channel?
    ensures Injected(aliases, existing)[i].id.Some?
    ensures Injected(aliases, existing)[i].id.value !in existing
    ensures |Injected(aliases, existing)[i].displayNames| == 1
    ensures Lookup(aliases, Injected(aliases, existing)[i].id.value)
      == Some(Injected(aliases, existing)[i].displayNames[0])
    decreases |aliases|
  {
    var rest := aliases[1..];
    var x := aliases[0].id;
    var head: seq<Element> := if x !in existing then [AliasChannel(aliases[0])] else [];
    assert Injected(aliases, existing) == head + Injected(rest, existing);
    if i >= |head| {
      InjectedNames(rest, existing, i - |head|);
      var y := Injected(rest, existing)[i - |head|].id.value;
      assert Lookup(rest, y).Some?;
      assert y != x;
    }
  }

  /** After injection every alias id names a channel: the guide's channel ids
      become the old ones together with all alias ids. */
  lemma InjectionCoversAliases(children: seq<Element>, aliases: AliasTable)
    ensures ChannelIds(children + Injected(aliases, ChannelIds(children)))
      == ChannelIds(children) + KeySet(aliases)
  {
    ChannelIdsAppend(children, Injected(aliases, ChannelIds(children)));
    InjectedIds(aliases, ChannelIds(children));
  }

  /** Alias `XYZ.us` -> `My Channel` over a guide that has only `ABC.us`:
      exactly one channel is added, and `ABC.us` is left as it was. */
  lemma InjectOneMissingChannel()
    ensures
      var guide := [Channel(Some("ABC.us"), ["ABC"])];
      var aliases := [Entry("XYZ.us", "My Channel")];
      guide + Injected(aliases, ChannelIds(guide))
        == [Channel(Some("ABC.us"), ["ABC"]), Channel(Some("XYZ.us"), ["My Channel"])]
  {
    var guide := [Channel(Some("ABC.us"), ["ABC"])];
    assert ChannelIds(guide) == {"ABC.us"} by { assert guide[0].id == Some("ABC.us"); }
    assert "XYZ.us" != "ABC.us" by { assert "XYZ.us"[0] != "ABC.us"[0]; }
  }

  // ---------------------------------------------------------------------------
  // Output text and file names.

  const XmlDeclaration: string := "<?xml version=\"1.0\" encoding=\"UTF-8\"?>"
  const DocType: string := "<!DOCTYPE tv SYSTEM \"xmltv.dtd\">"

  /** Step 4 of `main`: the two preamble lines, then the serialised tree. */
  function OutputText(body: string): string {
    XmlDeclaration + "\n" + DocType + "\n" + body
  }

  /** A string that holds no newline. */
  predicate SingleLine(line: string) {
    forall k :: 0 <= k < |line| ==> line[k] != '\n'
  }

  lemma PreambleSingleLines()
    ensures SingleLine(XmlDeclaration) && SingleLine(DocType)
  {
    assert forall k :: 0 <= k < |DocType| ==> DocType[k] != '\n';
    assert forall k :: 0 <= k < |XmlDeclaration| ==> XmlDeclaration[k] != '\n';
  }

  lemma {:induction false} LinesCons(line: string, rest: string)
    requires SingleLine(line)
    ensures Lines(line + "\n" + rest) == [line] + Lines(rest)
  {
    var s := line + "\n" + rest;
    assert s[|line|] == '\n';
    assert IndexFrom(s, '\n', 0) == Some(|line|);
    assert s[..|line|] == line && s[|line| + 1..] == rest;
  }

  /** The output's first two lines are the XML declaration and the DOCTYPE,
      and the rest of it is the serialised tree, line for line. */
  lemma OutputLines(body: string)
    ensures Lines(OutputText(body)) == [XmlDeclaration, DocType] + Lines(body)
  {
    PreambleSingleLines();
    OutputTextSplit(body);
    LinesCons(DocType, body);
    LinesCons(XmlDeclaration, DocType + "\n" + body);
  }

  lemma OutputTextSplit(body: string)
    ensures OutputText(body) == XmlDeclaration + "\n" + (DocType + "\n" + body)
  {
  }

  /** `f"chunk{idx}.xml"`, the decompressed chunk. */
  function ChunkXml(i: nat): string {
    "chunk" + Decimal(i) + ".xml"
  }

  /** `f"chunk{idx}.xml.gz"`, the downloaded chunk. */
  function ChunkGz(i: nat): string {
    "chunk" + Decimal(i) + ".xml.gz"
  }

  /** The decompressed files of the first `n` chunks, in download order. */
  function XmlNames(n: nat): seq<string> {
    seq(n, i requires 0 <= i < n => ChunkXml(i))
  }

  /** The downloaded files of the first `n` chunks, in download order. */
  function GzNames(n: nat): seq<string> {
    seq(n, i requires 0 <= i < n => ChunkGz(i))
  }

  /** Distinct chunks never share a temporary file: no two of the names
      `chunk{i}.xml` and `chunk{j}.xml.gz` coincide. */
  lemma ChunkNamesDistinct(i: nat, j: nat)
    ensures ChunkXml(i) == ChunkXml(j) ==> i == j
    ensures ChunkGz(i) == ChunkGz(j) ==> i == j
    ensures ChunkXml(i) != ChunkGz(j)
  {
    var a, b := ChunkXml(i), ChunkGz(j);
    assert a[|a| - 1] == 'l' && b[|b| - 1] == 'z';
    if ChunkXml(i) == ChunkXml(j) {
      assert ChunkXml(i)[5..|ChunkXml(i)| - 4] == Decimal(i);
      assert ChunkXml(j)[5..|ChunkXml(j)| - 4] == Decimal(j);
      DecimalValue(i);
      DecimalValue(j);
    }
    if ChunkGz(i) == ChunkGz(j) {
      assert ChunkGz(i)[5..|ChunkGz(i)| - 7] == Decimal(i);
      assert ChunkGz(j)[5..|ChunkGz(j)| - 7] == Decimal(j);
      DecimalValue(i);
      DecimalValue(j);
    }
  }

  /** Python's `s.replace(pat, rep)`: every non-overlapping occurrence of
      `pat`, leftmost first, replaced. */
  function ReplaceAll(s: string, pat: string, rep: string): string
    requires pat != []
    decreases |s|
  {
    if |s| < |pat| then s
    else if s[..|pat|] == pat then rep + ReplaceAll(s[|pat|..], pat, rep)
    else [s[0]] + ReplaceAll(s[1..], pat, rep)
  }

  /** Where `pat` does not occur, `replace` changes nothing. */
  lemma {:induction false} ReplaceAbsent(s: string, pat: string, rep: string)
    requires pat != []
    requires forall k: nat :: !OccursAt(s, pat, k)
    ensures ReplaceAll(s, pat, rep) == s
    decreases |s|
  {
    if |s| >= |pat| {
      assert !OccursAt(s, pat, 0);
      forall k: nat ensures !OccursAt(s[1..], pat, k) {
        if OccursAt(s[1..], pat, k) {
          assert s[1..][k..k + |pat|] == s[k + 1..k + 1 + |pat|];
          assert OccursAt(s, pat, k + 1);
        }
      }
      ReplaceAbsent(s[1..], pat, rep);
      assert s == [s[0]] + s[1..];
    }
  }

  /** `pat` occurs in `s` starting at index `k`. */
  predicate OccursAt(s: string, pat: string, k: nat) {
    k + |pat| <= |s| && s[k..k + |pat|] == pat
  }

  lemma {:induction false} ReplaceExtension(stem: string)
    requires forall k :: 0 <= k < |stem| ==> stem[k] != '.'
    ensures ReplaceAll(stem + ".xml", ".xml", ".xml.gz") == stem + ".xml.gz"
    decreases |stem|
  {
    var s := stem + ".xml";
    if stem == [] {
      assert s == ".xml";
      assert ReplaceAll(s, ".xml", ".xml.gz") == ".xml.gz" + ReplaceAll([], ".xml", ".xml.gz");
    } else {
      assert s[..4][0] == stem[0] != '.';
      assert s[1..] == stem[1..] + ".xml";
      ReplaceExtension(stem[1..]);
    }
  }

  /** Step 5 of `main`: every decompressed file, then `.xml` replaced by
      `.xml.gz` in each name. */
  function CleanupList(xmlFiles: seq<string>): seq<string> {
    xmlFiles + seq(|xmlFiles|, i requires 0 <= i < |xmlFiles| => ReplaceAll(xmlFiles[i], ".xml", ".xml.gz"))
  }

  /** The cleanup list names exactly the files step 1 wrote: every
      `chunk{i}.xml`, then every `chunk{i}.xml.gz`, for the chunks downloaded. */
  lemma CleanupRemovesDownloads(n: nat)
    ensures CleanupList(XmlNames(n)) == XmlNames(n) + GzNames(n)
  {
    var xmlFiles := XmlNames(n);
    forall i | 0 <= i < n
      ensures ReplaceAll(xmlFiles[i], ".xml", ".xml.gz") == ChunkGz(i)
    {
      var stem := "chunk" + Decimal(i);
      assert forall k :: 0 <= k < |stem| ==> stem[k] != '.' by {
        forall k | 0 <= k < |stem| ensures stem[k] != '.' {
          if k >= 5 { assert stem[k] == Decimal(i)[k - 5]; }
        }
      }
      ReplaceExtension(stem);
      assert ChunkXml(i) == stem + ".xml";
      assert ChunkGz(i) == stem + ".xml.gz";
    }
  }

  // ---------------------------------------------------------------------------
  // The whole of `main`.

  /** One iteration of step 1 and its parse in step 2: the chunk's top-level
      children, or the download, gzip or XML error that aborts the run. */
  datatype Download = Parsed(children: seq<Element>) | Failed

  /** How a run ends: aborted by an exception, or with the output file's text,
      the number of injected channels and the files removed. */
  datatype MergeOutcome = Aborted | Written(output: string, added: nat, removed: seq<string>)

  function ParsedChunks(downloads: seq<Download>): seq<seq<Element>>
    requires forall i :: 0 <= i < |downloads| ==> downloads[i].Parsed?
  {
    seq(|downloads|, i requires 0 <= i < |downloads| => downloads[i].children)
  }

  /** `main`: aborts when any chunk fails; otherwise writes the preamble and
      the serialised merged tree (`render` stands for `ET.tostring`), having
      injected one channel per alias id missing from the merged chunks, and
      removes every temporary file. */
  method RunMerge(downloads: seq<Download>, aliases: AliasTable, render: seq<Element> -> string)
    returns (out: MergeOutcome)
    ensures out.Aborted? <==> exists i :: 0 <= i < |downloads| && downloads[i].Failed?
    ensures out.Written? ==>
      var merged := Concat(ParsedChunks(downloads));
      var injected := Injected(aliases, ChannelIds(merged));
      && out.output == OutputText(render(merged + injected))
      && out.added == |injected|
      && out.removed == XmlNames(|downloads|) + GzNames(|downloads|)
  {
    var xmlFiles: seq<string> := [];
    var chunks: seq<seq<Element>> := [];
    for idx := 0 to |downloads|
      invariant xmlFiles == XmlNames(idx)
      invariant forall i :: 0 <= i < idx ==> downloads[i].Parsed?
      invariant chunks == ParsedChunks(downloads[..idx])
    {
      if downloads[idx].Failed? {
        return Aborted;
      }
      var xmlName := "chunk" + Decimal(idx) + ".xml";
      xmlFiles := xmlFiles + [xmlName];
      chunks := chunks + [downloads[idx].children];
    }
    assert downloads[..|downloads|] == downloads;
    var tv := MergeChunks(chunks);
    var added := InjectMissing(tv, aliases);
    var output := OutputText(render(tv.children));
    CleanupRemovesDownloads(|downloads|);
    out := Written(output, added, CleanupList(xmlFiles));
  }
}
