/** The gap finder (find_missing_epg.py): the channel ids of the unified
    guide, the `tvg-id`s of the playlist, the sorted list of playlist ids the
    guide lacks, the report and the exit status. */
module MissingReport {
  import opened Text
  import opened AttrScan
  import opened Guide
  import Playlist

  /** `unified_ids`: the ids of the root's channel children that are present
      and non-empty. */
  function GuideIds(root: seq<Element>): (r: set<string>)
    ensures forall x :: x in r ==> x != []
  {
    ChannelIds(root) - {[]}
  }

  /** Only channels count: a programme or any other element added to the
      guide changes nothing, a channel with a non-empty id adds that id. */
  lemma GuideIdsAppend(root: seq<Element>, e: Element)
    ensures GuideIds(root + [e]) ==
      if e.Channel? && e.id.Some? && e.id.value != [] then GuideIds(root) + {e.id.value}
      else GuideIds(root)
  {
    ChannelIdsAppend(root, [e]);
    if e.Channel? && e.id.Some? {
      assert ChannelIds([e]) == {e.id.value} by { assert [e][0] == e; }
    } else {
      assert ChannelIds([e]) == {};
    }
  }

  /** `playlist_ids`: the set of every non-empty `tvg-id="..."` group in the
      whole text, unstripped. */
  function PlaylistIds(text: string): (r: set<string>)
    ensures forall x :: x in r ==> x != [] && NoQuote(x)
  {
    set x | x in FindAll(IdPrefix, text, true)
  }

  /** The gap finder's ids are the merger's raw ids minus the empty one, so
      the merger's `ids_in_playlist` is exactly its non-blank part. */
  lemma PlaylistIdsAgree(text: string)
    ensures forall x :: x in PlaylistIds(text) <==> x in Playlist.RawIds(text) && x != []
    ensures forall x :: x in Playlist.IdsInPlaylist(text) <==> x in PlaylistIds(text) && !AllSpace(x)
  {
    IdPrefixUnrepeating();
    FindAllNonEmpty(IdPrefix, text, 0);
    NonEmptyMembers(Playlist.RawIds(text));
  }

  lemma {:induction false} NonEmptyMembers(xs: seq<string>)
    ensures forall x :: x in NonEmpty(xs) <==> x in xs && x != []
  {
    if xs != [] {
      NonEmptyMembers(xs[1..]);
      assert xs == [xs[0]] + xs[1..];
    }
  }

  // ---------------------------------------------------------------------------
  // `sorted(...)` of a set of strings.

  /** Ascending under Python's string order, hence without duplicates. */
  predicate StrictlySorted(s: seq<string>) {
    forall i, j :: 0 <= i < j < |s| ==> Less(s[i], s[j])
  }

  /** `x` put into its place in `s`, unless it is there already. */
  function Insert(x: string, s: seq<string>): (r: seq<string>)
    requires StrictlySorted(s)
    ensures StrictlySorted(r)
    ensures forall y :: y in r <==> y == x || y in s
  {
    if s == [] then [x]
    else if x == s[0] then s
    else if Less(x, s[0]) then
      assert forall j :: 0 < j < |s| ==> Less(x, s[j]) by {
        forall j | 0 < j < |s| ensures Less(x, s[j]) { LessTransitive(x, s[0], s[j]); }
      }
      [x] + s
    else
      LessTotal(x, s[0]);
      var rest := Insert(x, s[1..]);
      assert forall y :: y in rest ==> Less(s[0], y);
      [s[0]] + rest
  }

  /** `sorted(set(xs))`. */
  function SortedSet(xs: seq<string>): (r: seq<string>)
    ensures StrictlySorted(r)
    ensures forall y :: y in r <==> y in xs
  {
    if xs == [] then []
    else
      var r := Insert(xs[|xs| - 1], SortedSet(xs[..|xs| - 1]));
      assert xs == xs[..|xs| - 1] + [xs[|xs| - 1]];
      r
  }

  /** The first element of a strictly ascending sequence is its least. */
  lemma HeadIsLeast(s: seq<string>, y: string)
    requires StrictlySorted(s) && y in s
    ensures y == s[0] || Less(s[0], y)
  {
  }

  lemma {:induction false} LessAsymmetric(x: string, y: string)
    ensures !(Less(x, y) && Less(y, x))
    decreases |x|
  {
    if x != [] && y != [] && x[0] == y[0] {
      LessAsymmetric(x[1..], y[1..]);
    }
  }

  /** Sorting a set has one answer: two strictly ascending sequences with the
      same members are the same sequence. */
  lemma {:induction false} SortedUnique(a: seq<string>, b: seq<string>)
    requires StrictlySorted(a) && StrictlySorted(b)
    requires forall y :: y in a <==> y in b
    ensures a == b
    decreases |a|
  {
    assert a != [] ==> a[0] in a;
    assert b != [] ==> b[0] in b;
    if a != [] && b != [] {
      HeadIsLeast(a, b[0]);
      HeadIsLeast(b, a[0]);
      LessAsymmetric(a[0], b[0]);
      assert a[0] == b[0];
      assert a == [a[0]] + a[1..] && b == [b[0]] + b[1..];
      forall y ensures y in a[1..] <==> y in b[1..] {
        if y in a[1..] {
          var j :| 0 <= j < |a| - 1 && a[1..][j] == y;
          assert Less(a[0], a[j + 1]);
          LessIrreflexive(y);
          assert y in b && y != b[0];
        }
        if y in b[1..] {
          var j :| 0 <= j < |b| - 1 && b[1..][j] == y;
          assert Less(b[0], b[j + 1]);
          LessIrreflexive(y);
          assert y in a && y != a[0];
        }
      }
      SortedUnique(a[1..], b[1..]);
    }
  }

  /** The playlist's ids in the order the scan finds them, without those the guide has. */
  function Uncovered(ids: seq<string>, guide: set<string>): seq<string> {
    if ids == [] then []
    else (if ids[0] in guide then [] else [ids[0]]) + Uncovered(ids[1..], guide)
  }

  lemma {:induction false} UncoveredMembers(ids: seq<string>, guide: set<string>)
    ensures forall x :: x in Uncovered(ids, guide) <==> x in ids && x !in guide
  {
    if ids != [] {
      UncoveredMembers(ids[1..], guide);
      assert ids == [ids[0]] + ids[1..];
    }
  }

  /** `missing = sorted(playlist_ids - unified_ids)`. */
  function Missing(text: string, root: seq<Element>): (r: seq<string>)
    ensures StrictlySorted(r)
    ensures forall x :: x in r <==> x in PlaylistIds(text) && x !in GuideIds(root)
  {
    var ids := FindAll(IdPrefix, text, true);
    UncoveredMembers(ids, GuideIds(root));
    SortedSet(Uncovered(ids, GuideIds(root)))
  }

  /** `s` without `x`, order kept. */
  function Without(s: seq<string>, x: string): (r: seq<string>)
    ensures forall y :: y in r <==> y in s && y != x
    ensures forall i :: 0 <= i < |r| ==> exists j :: 0 <= j < |s| && r[i] == s[j]
  {
    if s == [] then []
    else
      var rest := Without(s[1..], x);
      assert forall i :: 0 <= i < |rest| ==> exists j :: 0 <= j < |s| && rest[i] == s[j] by {
        forall i | 0 <= i < |rest| ensures exists j :: 0 <= j < |s| && rest[i] == s[j] {
          var j :| 0 <= j < |s[1..]| && rest[i] == s[1..][j];
          assert rest[i] == s[j + 1];
        }
      }
      (if s[0] == x then [] else [s[0]]) + rest
  }

  lemma {:induction false} WithoutSorted(s: seq<string>, x: string)
    requires StrictlySorted(s)
    ensures StrictlySorted(Without(s, x))
    decreases |s|
  {
    if s != [] {
      var rest := Without(s[1..], x);
      WithoutSorted(s[1..], x);
      if s[0] != x {
        forall y | y in rest ensures Less(s[0], y) {
          var j :| 0 <= j < |s| - 1 && y == s[1..][j];
          assert y == s[j + 1];
        }
      }
    }
  }

  /** Adding a guide channel with id `x` takes `x` out of the missing list and
      leaves every other entry where it was. */
  lemma AddingChannelRemovesIt(text: string, root: seq<Element>, x: string, names: seq<string>)
    ensures Missing(text, root + [Channel(Some(x), names)]) == Without(Missing(text, root), x)
  {
    GuideIdsAppend(root, Channel(Some(x), names));
    WithoutSorted(Missing(text, root), x);
    SortedUnique(Missing(text, root + [Channel(Some(x), names)]), Without(Missing(text, root), x));
  }

  /** Programmes and other non-channel elements never change the missing list. */
  lemma NonChannelsIgnored(text: string, root: seq<Element>, e: Element)
    requires !e.Channel?
    ensures Missing(text, root + [e]) == Missing(text, root)
  {
    GuideIdsAppend(root, e);
    SortedUnique(Missing(text, root + [e]), Missing(text, root));
  }

  // ---------------------------------------------------------------------------
  // The report and the exit status.

  /** What the script prints: the all-clear line, or the count and the ids. */
  datatype Report = AllHaveData | MissingChannels(count: nat, ids: seq<string>)

  function MakeReport(missing: seq<string>): (r: Report)
    ensures r.MissingChannels? ==> r.count == |r.ids| > 0 && r.ids == missing
  {
    if missing == [] then AllHaveData else MissingChannels(|missing|, missing)
  }

  /** The all-clear branch is taken exactly when every playlist id is a guide id. */
  lemma AllClearIff(text: string, root: seq<Element>)
    ensures MakeReport(Missing(text, root)).AllHaveData? <==> PlaylistIds(text) <= GuideIds(root)
  {
    var m := Missing(text, root);
    if m != [] {
      assert m[0] in PlaylistIds(text) && m[0] !in GuideIds(root);
    }
  }

  /** The unified guide file: absent, not parseable, or its root's children. */
  datatype GuideFile = NotFound | Unparsable | Loaded(root: seq<Element>)

  /** How a run ends: a fatal exit, or a report followed by normal exit. */
  datatype GapOutcome = Exited(status: nat) | Reported(report: Report)

  function ExitStatus(o: GapOutcome): nat {
    match o
    case Exited(status) => status
    case Reported(_) => 0
  }

  /** The whole script: load the guide, check the credentials (before any
      request), fetch the playlist, report. */
  function RunGapFinder(guide: GuideFile, user: Option<string>, password: Option<string>, fetch: Playlist.Fetch)
    : (r: GapOutcome)
    ensures ExitStatus(r) == 1 <==>
      !guide.Loaded? || !Playlist.Truthy(user) || !Playlist.Truthy(password) || fetch.FetchFailed?
    ensures ExitStatus(r) != 1 ==> r == Reported(MakeReport(Missing(fetch.text, guide.root)))
  {
    if !guide.Loaded? then Exited(1)
    else if !Playlist.Truthy(user) || !Playlist.Truthy(password) then Exited(1)
    else match fetch
      case FetchFailed => Exited(1)
      case Fetched(text) => Reported(MakeReport(Missing(text, guide.root)))
  }

  /** Missing credentials end the run before the request: its outcome plays no part. */
  lemma CredentialsCheckedFirst(guide: GuideFile, user: Option<string>, password: Option<string>,
                                f1: Playlist.Fetch, f2: Playlist.Fetch)
    requires !Playlist.Truthy(user) || !Playlist.Truthy(password)
    ensures RunGapFinder(guide, user, password, f1) == RunGapFinder(guide, user, password, f2)
  {
  }
}
