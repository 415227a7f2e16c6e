/** The playlist half of the merger (merge_epg.py, module level): the ids that
    occur in the playlist, the `#EXTINF` alias loop that maps each id to a
    display name, and the all-or-nothing fall-back to no aliases at all. */
module Playlist {
  import opened Text
  import opened AttrScan

  /** The marker that opens an entry-description line. */
  const Marker: string := "#EXTINF"

  /** `raw_ids`: every `tvg-id="..."` group in the whole text, empty ones included. */
  function RawIds(text: string): (r: seq<string>)
    ensures forall k :: 0 <= k < |r| ==> NoQuote(r[k])
    ensures r == [] <==> forall p :: MatchAt(IdPrefix, text, p, false).None?
  {
    FindAllEmpty(IdPrefix, text, 0, false);
    FindAll(IdPrefix, text, false)
  }

  /** `ids_in_playlist`: the raw ids, unstripped, that hold at least one
      non-white-space character. */
  function IdsInPlaylist(text: string): (r: set<string>)
    ensures forall x :: x in r <==> x in RawIds(text) && !AllSpace(x)
    ensures forall x :: x in r ==> x != [] && NoQuote(x)
  {
    set x | x in RawIds(text) && Strip(x) != []
  }

  /** What one line does in the alias loop: nothing, a candidate id and name,
      or the IndexError of `line.split(",", 1)[1]`. */
  datatype LineResult = Skipped | Named(id: string, name: string) | Broken

  /** The id an entry line offers: its first `tvg-id` group, stripped, when
      the line starts with the marker and that id is not blank. */
  function EntryId(line: string): (r: Option<string>)
    ensures r.Some? <==>
      && StartsWith(line, Marker)
      && Search(IdPrefix, line, false).Some?
      && !AllSpace(Search(IdPrefix, line, false).value.value)
    ensures r.Some? ==> r.value == Strip(Search(IdPrefix, line, false).value.value)
    ensures r.Some? ==> r.value != [] && Stripped(r.value)
  {
    if !StartsWith(line, Marker) then None
    else match Search(IdPrefix, line, false)
      case None => None
      case Some(idMatch) =>
        var vid := Strip(idMatch.value);
        if vid == [] then None else Some(vid)
  }

  /** The display name of a line: its first non-empty `tvg-name` group,
      stripped, or else the stripped text after its first comma; None when it
      has neither (where the script raises). */
  function EntryName(line: string): (r: Option<string>)
    ensures r.None? <==>
      Search(NamePrefix, line, true).None? && forall k :: 0 <= k < |line| ==> line[k] != ','
    ensures Search(NamePrefix, line, true).Some? ==> r == Some(Strip(Search(NamePrefix, line, true).value.value))
    ensures r.Some? ==> Stripped(r.value)
  {
    match Search(NamePrefix, line, true)
    case Some(nameMatch) => Some(Strip(nameMatch.value))
    case None => AfterFirstComma(line)
  }

  /** `line.split(",", 1)[1].strip()`, or None where the index is out of range. */
  function AfterFirstComma(line: string): (r: Option<string>)
    ensures r.None? <==> forall k :: 0 <= k < |line| ==> line[k] != ','
  {
    match IndexFrom(line, ',', 0)
    case None => None
    case Some(c) => Some(Strip(line[c + 1..]))
  }

  /** The name of a line with no non-empty `tvg-name` is the stripped text
      after its FIRST comma, whatever follows. */
  lemma NameFallsBackToFirstComma(line: string, c: nat)
    requires Search(NamePrefix, line, true).None?
    requires c < |line| && line[c] == ',' && forall k :: 0 <= k < c ==> line[k] != ','
    ensures EntryName(line) == Some(Strip(line[c + 1..]))
  {
    IndexFromFirst(line, ',', 0, c);
  }

  /** One pass of the loop body of merge_epg.py, before the membership test:
      the name is looked up (and may raise) only for a line that offers an id.
      A line raises exactly when it starts with the marker, its first `tvg-id`
      group is not blank, and it has neither a non-empty `tvg-name` nor a comma. */
  function ClassifyLine(line: string): (r: LineResult)
    ensures r.Broken? <==>
      && StartsWith(line, Marker)
      && Search(IdPrefix, line, false).Some?
      && !AllSpace(Search(IdPrefix, line, false).value.value)
      && Search(NamePrefix, line, true).None?
      && forall k :: 0 <= k < |line| ==> line[k] != ','
    ensures r.Skipped? <==> EntryId(line).None?
    ensures r.Named? ==> Some(r.id) == EntryId(line) && Some(r.name) == EntryName(line)
  {
    match EntryId(line)
    case None => Skipped
    case Some(vid) =>
      match EntryName(line)
      case None => Broken
      case Some(vname) => Named(vid, vname)
  }

  // ---------------------------------------------------------------------------
  // The `aliases` dict: a Python dict keeps its keys in first-insertion order,
  // so it is modelled as a list of entries with distinct ids.

  datatype Entry = Entry(id: string, name: string)

  type AliasTable = seq<Entry>

  function Keys(t: AliasTable): (r: seq<string>)
    ensures |r| == |t| && forall i :: 0 <= i < |t| ==> r[i] == t[i].id
  {
    if t == [] then [] else [t[0].id] + Keys(t[1..])
  }

  /** No string occurs twice. */
  predicate NoDup(s: seq<string>) {
    s == [] || (s[0] !in s[1..] && NoDup(s[1..]))
  }

  lemma {:induction false} NoDupSnoc(s: seq<string>, x: string)
    requires NoDup(s) && x !in s
    ensures NoDup(s + [x])
  {
    if s != [] {
      NoDupSnoc(s[1..], x);
      assert (s + [x])[1..] == s[1..] + [x];
    }
  }

  /** No id occurs twice. */
  predicate DistinctKeys(t: AliasTable) {
    NoDup(Keys(t))
  }

  /** `t.get(k)`. */
  function Lookup(t: AliasTable, k: string): (r: Option<string>)
    ensures r.None? <==> k !in Keys(t)
  {
    if t == [] then None
    else if t[0].id == k then Some(t[0].name)
    else Lookup(t[1..], k)
  }

  /** `t[k] = v`: an existing key keeps its place and takes the new value, a
      new key goes last, and no other key changes. */
  function Put(t: AliasTable, k: string, v: string): (r: AliasTable)
    ensures Keys(r) == if k in Keys(t) then Keys(t) else Keys(t) + [k]
  {
    if t == [] then [Entry(k, v)]
    else if t[0].id == k then
      var r := [Entry(k, v)] + t[1..];
      assert r[1..] == t[1..];
      assert Keys(r) == [k] + Keys(t[1..]);
      r
    else
      var rest := Put(t[1..], k, v);
      var r := [t[0]] + rest;
      assert r[1..] == rest;
      assert Keys(t) == [t[0].id] + Keys(t[1..]);
      assert Keys(r) == [t[0].id] + Keys(rest);
      r
  }

  /** After `t[k] = v`, `k` maps to `v` and every other key to what it mapped to before. */
  lemma {:induction false} PutLookup(t: AliasTable, k: string, v: string, k': string)
    ensures Lookup(Put(t, k, v), k') == if k' == k then Some(v) else Lookup(t, k')
  {
    if t != [] && t[0].id != k {
      PutLookup(t[1..], k, v, k');
      assert Put(t, k, v)[1..] == Put(t[1..], k, v);
    }
  }

  /** Setting a key keeps the keys distinct. */
  lemma PutKeepsDistinct(t: AliasTable, k: string, v: string)
    requires DistinctKeys(t)
    ensures DistinctKeys(Put(t, k, v))
  {
    if k !in Keys(t) {
      NoDupSnoc(Keys(t), k);
    }
  }

  /** The result of every line, in order. */
  function Classify(lines: seq<string>): (r: seq<LineResult>)
    ensures |r| == |lines|
  {
    seq(|lines|, i requires 0 <= i < |lines| => ClassifyLine(lines[i]))
  }

  /** Every id a line offers is non-empty and stripped. */
  predicate ProperIds(results: seq<LineResult>) {
    forall j :: 0 <= j < |results| && results[j].Named? ==>
      results[j].id != [] && Stripped(results[j].id)
  }

  lemma ClassifiedIdsProper(lines: seq<string>)
    ensures ProperIds(Classify(lines))
  {
    forall j | 0 <= j < |lines| && Classify(lines)[j].Named?
      ensures Classify(lines)[j].id != [] && Stripped(Classify(lines)[j].id)
    {
      assert Classify(lines)[j] == ClassifyLine(lines[j]);
    }
  }

  /** One line's effect on the loop state (None once the loop has raised):
      a named line whose id is in `known` sets that id's name. */
  function Step(acc: Option<AliasTable>, res: LineResult, known: set<string>): Option<AliasTable> {
    match acc
    case None => None
    case Some(t) =>
      match res
      case Skipped => Some(t)
      case Broken => None
      case Named(id, name) => Some(if id in known then Put(t, id, name) else t)
  }

  /** The alias loop over the lines' results, checking each id against
      `known`; None when some line raised. */
  function Aliases(results: seq<LineResult>, known: set<string>): Option<AliasTable>
    decreases |results|
  {
    if results == [] then Some([])
    else Step(Aliases(results[..|results| - 1], known), results[|results| - 1], known)
  }

  /** The loop's table repeats no key, holds only keys in `known`, and only
      keys that lines offered. */
  lemma {:induction false} AliasesKeys(results: seq<LineResult>, known: set<string>)
    requires Aliases(results, known).Some?
    ensures DistinctKeys(Aliases(results, known).value)
    ensures forall k :: k in Keys(Aliases(results, known).value) ==> k in known
    ensures ProperIds(results) ==>
      forall k :: k in Keys(Aliases(results, known).value) ==> k != [] && Stripped(k)
    decreases |results|
  {
    if results != [] {
      var n := |results| - 1;
      var prefix := results[..n];
      var prev := Aliases(prefix, known);
      assert Aliases(results, known) == Step(prev, results[n], known);
      AliasesKeys(prefix, known);
      assert ProperIds(results) ==> ProperIds(prefix) by {
        if ProperIds(results) {
          forall j | 0 <= j < n && prefix[j].Named?
            ensures prefix[j].id != [] && Stripped(prefix[j].id)
          {
            assert prefix[j] == results[j];
          }
        }
      }
      match results[n]
      case Named(id, name) =>
        if id in known {
          PutKeepsDistinct(prev.value, id, name);
        }
      case _ =>
    }
  }

  /** The loop after one more line is one more step. */
  lemma AliasesExtend(results: seq<LineResult>, known: set<string>, i: nat)
    requires i < |results|
    ensures Aliases(results[..i + 1], known) == Step(Aliases(results[..i], known), results[i], known)
  {
    assert results[..i + 1][..i] == results[..i];
  }

  /** `aliases` after a successful fetch of `text`: the loop's table, or the
      empty table when the loop raised. */
  function AliasMap(text: string): AliasTable {
    match Aliases(Classify(Lines(text)), IdsInPlaylist(text))
    case None => []
    case Some(t) => t
  }

  /** The alias loop of merge_epg.py, run line by line. */
  method BuildAliases(text: string) returns (aliases: AliasTable)
    ensures aliases == AliasMap(text)
  {
    var known := IdsInPlaylist(text);
    var lines := Lines(text);
    ghost var results := Classify(lines);
    aliases := [];
    var i := 0;
    while i < |lines|
      invariant 0 <= i <= |lines|
      invariant Aliases(results[..i], known) == Some(aliases)
    {
      AliasesExtend(results, known, i);
      var res := ClassifyLine(lines[i]);
      assert res == results[i];
      match res {
        case Skipped =>
        case Broken =>
          BrokenLineEmpties(results, known, i);
          return [];
        case Named(vid, vname) =>
          if vid in known {
            aliases := Put(aliases, vid, vname);
          }
      }
      i := i + 1;
    }
    assert results[..|lines|] == results;
  }

  /** A raising line anywhere makes the whole loop raise. */
  lemma {:induction false} BrokenLineEmpties(results: seq<LineResult>, known: set<string>, i: nat)
    requires i < |results| && results[i].Broken?
    ensures Aliases(results, known).None?
    decreases |results|
  {
    var n := |results| - 1;
    AliasesExtend(results, known, n);
    assert results[..n + 1] == results;
    if i < n {
      assert results[..n][i] == results[i];
      BrokenLineEmpties(results[..n], known, i);
      assert Step(None, results[n], known).None?;
    } else {
      assert Step(Aliases(results[..n], known), Broken, known).None?;
    }
  }

  /** The loop raises exactly when some line raises. */
  lemma {:induction false} AliasesFailIff(results: seq<LineResult>, known: set<string>)
    ensures Aliases(results, known).None? <==> exists i :: 0 <= i < |results| && results[i].Broken?
    decreases |results|
  {
    if results != [] {
      var n := |results| - 1;
      AliasesFailIff(results[..n], known);
      if exists i :: 0 <= i < |results| && results[i].Broken? {
        var i :| 0 <= i < |results| && results[i].Broken?;
        BrokenLineEmpties(results, known, i);
      } else {
        forall i | 0 <= i < n ensures !results[..n][i].Broken? {
          assert results[..n][i] == results[i];
        }
        AliasesExtend(results, known, n);
        assert results[..n + 1] == results;
        assert !results[n].Broken?;
      }
    }
  }

  /** The name that the last line qualifying for `k` gives it: such a line
      offers the id `k`, and `k` is known. */
  function LastName(results: seq<LineResult>, known: set<string>, k: string): Option<string>
    decreases |results|
  {
    if results == [] then None
    else
      var prev := LastName(results[..|results| - 1], known, k);
      match results[|results| - 1]
      case Named(id, name) => if id == k && k in known then Some(name) else prev
      case _ => prev
  }

  /** Later lines overwrite earlier ones: each key maps to the name of its last
      qualifying line, and a key is present exactly when such a line exists. */
  lemma {:induction false} LastWriterWins(results: seq<LineResult>, known: set<string>, k: string)
    requires Aliases(results, known).Some?
    ensures Lookup(Aliases(results, known).value, k) == LastName(results, known, k)
    decreases |results|
  {
    if results != [] {
      var prefix := results[..|results| - 1];
      LastWriterWins(prefix, known, k);
      match results[|results| - 1]
      case Named(id, name) =>
        if id in known {
          PutLookup(Aliases(prefix, known).value, id, name, k);
        }
      case _ =>
    }
  }

  /** All or nothing: one `#EXTINF` line with a non-blank id, no non-empty
      `tvg-name` and no comma leaves the playlist with no aliases at all, even
      when that id is not in the playlist's id set. */
  lemma BrokenLineEmptiesMap(text: string, i: nat)
    requires i < |Lines(text)|
    requires EntryId(Lines(text)[i]).Some? && EntryName(Lines(text)[i]).None?
    ensures AliasMap(text) == []
  {
    var results := Classify(Lines(text));
    assert results[i] == ClassifyLine(Lines(text)[i]);
    BrokenLineEmpties(results, IdsInPlaylist(text), i);
  }

  /** The keys of the alias map are distinct, non-empty, stripped, and each
      occurs unstripped among the playlist's non-blank ids: a line with
      `tvg-id=" X "` adds `X` only when a bare `X` occurs somewhere too. */
  lemma AliasMapKeys(text: string)
    ensures DistinctKeys(AliasMap(text))
    ensures forall k :: k in Keys(AliasMap(text)) ==> k in IdsInPlaylist(text) && k != [] && Stripped(k)
  {
    var results := Classify(Lines(text));
    ClassifiedIdsProper(Lines(text));
    if Aliases(results, IdsInPlaylist(text)).Some? {
      AliasesKeys(results, IdsInPlaylist(text));
    }
  }

  /** Python's truth test on an environment variable: set and non-empty. */
  predicate Truthy(v: Option<string>) {
    v.Some? && v.value != []
  }

  /** The outcome of the playlist request: its text, or an exception. */
  datatype Fetch = Fetched(text: string) | FetchFailed

  /** `aliases` at module level: empty when a credential is unset or empty,
      when the request fails, or when any line of the playlist raises. */
  function PlaylistAliases(user: Option<string>, password: Option<string>, fetch: Fetch): (r: AliasTable)
    ensures r != [] ==> Truthy(user) && Truthy(password) && fetch.Fetched?
    ensures Truthy(user) && Truthy(password) && fetch.Fetched? ==> r == AliasMap(fetch.text)
  {
    if Truthy(user) && Truthy(password) then
      match fetch
      case FetchFailed => []
      case Fetched(text) => AliasMap(text)
    else []
  }
}
