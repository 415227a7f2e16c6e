/** The two regular expressions the scripts apply to playlist text,
    `tvg-id="([^"]*)"` / `tvg-id="([^"]+)"` and `tvg-name="([^"]+)"`, written out
    as the left-to-right scans `re.search` and `re.findall` perform for them. */
module AttrScan {
  import opened Text

  /** The literal that opens a `tvg-id` value. */
  const IdPrefix: string := "tvg-id=\""

  /** The literal that opens a `tvg-name` value. */
  const NamePrefix: string := "tvg-name=\""

  predicate NoQuote(v: string) {
    forall k :: 0 <= k < |v| ==> v[k] != '"'
  }

  /** One match: where it starts, the captured group, and the index just after
      the closing quote (where `findall` resumes). */
  datatype Match = Match(start: nat, value: string, end: nat)

  /** The pattern `pre([^"]*)"`, or `pre([^"]+)"` when `nonEmpty`, tried at
      exactly position `p` of `s`: the group runs from the end of `pre` up to
      the next '"'. */
  function MatchAt(pre: string, s: string, p: nat, nonEmpty: bool): (r: Option<Match>)
    ensures r.Some? ==>
      && r.value.start == p
      && p + |pre| < r.value.end <= |s|
      && s[p..p + |pre|] == pre
      && s[r.value.end - 1] == '"'
      && r.value.value == s[p + |pre|..r.value.end - 1]
      && NoQuote(r.value.value)
      && (nonEmpty ==> r.value.value != [])
    ensures r.None? && p + |pre| <= |s| && s[p..p + |pre|] == pre ==>
      (nonEmpty && p + |pre| < |s| && s[p + |pre|] == '"') || NoQuote(s[p + |pre|..])
  {
    if p + |pre| <= |s| && s[p..p + |pre|] == pre then
      match IndexFrom(s, '"', p + |pre|)
      case None => None
      case Some(q) =>
        if nonEmpty && q == p + |pre| then None else Some(Match(p, s[p + |pre|..q], q + 1))
    else None
  }

  /** `re.search` started at index `i`: the leftmost match at or after `i`. */
  function SearchFrom(pre: string, s: string, i: nat, nonEmpty: bool): (r: Option<Match>)
    decreases |s| + 1 - i
    ensures r.Some? ==> i <= r.value.start && MatchAt(pre, s, r.value.start, nonEmpty) == r
    ensures forall p :: i <= p && (r.None? || p < r.value.start) ==> MatchAt(pre, s, p, nonEmpty).None?
  {
    if i > |s| then None
    else match MatchAt(pre, s, i, nonEmpty)
      case Some(m) => Some(m)
      case None => SearchFrom(pre, s, i + 1, nonEmpty)
  }

  /** `re.search(pattern, s)`. */
  function Search(pre: string, s: string, nonEmpty: bool): Option<Match> {
    SearchFrom(pre, s, 0, nonEmpty)
  }

  /** `re.findall` started at index `i`: the group of every non-overlapping
      match, each search resuming just after the previous closing quote. */
  function FindAllFrom(pre: string, s: string, i: nat, nonEmpty: bool): (r: seq<string>)
    requires i <= |s|
    decreases |s| - i
    ensures forall k :: 0 <= k < |r| ==> NoQuote(r[k])
    ensures nonEmpty ==> forall k :: 0 <= k < |r| ==> r[k] != []
  {
    match SearchFrom(pre, s, i, nonEmpty)
    case None => []
    case Some(m) => [m.value] + FindAllFrom(pre, s, m.end, nonEmpty)
  }

  /** One step of the scan: the first match's group, then the scan resumed after it. */
  lemma FindAllStep(pre: string, s: string, i: nat, nonEmpty: bool)
    requires i <= |s| && SearchFrom(pre, s, i, nonEmpty).Some?
    ensures SearchFrom(pre, s, i, nonEmpty).value.end <= |s|
    ensures FindAllFrom(pre, s, i, nonEmpty) ==
      [SearchFrom(pre, s, i, nonEmpty).value.value] + FindAllFrom(pre, s, SearchFrom(pre, s, i, nonEmpty).value.end, nonEmpty)
  {
  }

  /** The scan comes back empty exactly when no match starts at or after `i`. */
  lemma FindAllEmpty(pre: string, s: string, i: nat, nonEmpty: bool)
    requires i <= |s|
    ensures FindAllFrom(pre, s, i, nonEmpty) == [] <==> forall p :: i <= p ==> MatchAt(pre, s, p, nonEmpty).None?
  {
    if SearchFrom(pre, s, i, nonEmpty).Some? {
      FindAllStep(pre, s, i, nonEmpty);
    }
  }

  /** `v` is the group of a match of the pattern at position `p`. */
  predicate GroupAt(pre: string, s: string, p: nat, nonEmpty: bool, v: string) {
    MatchAt(pre, s, p, nonEmpty).Some? && MatchAt(pre, s, p, nonEmpty).value.value == v
  }

  /** Every group the scan returns is the group of a match starting at or after `i`. */
  lemma {:induction false} FindAllSound(pre: string, s: string, i: nat, nonEmpty: bool, k: nat)
    requires i <= |s|
    requires k < |FindAllFrom(pre, s, i, nonEmpty)|
    ensures exists p :: i <= p && GroupAt(pre, s, p, nonEmpty, FindAllFrom(pre, s, i, nonEmpty)[k])
    decreases |s| - i
  {
    var r := FindAllFrom(pre, s, i, nonEmpty);
    var m := SearchFrom(pre, s, i, nonEmpty).value;
    FindAllStep(pre, s, i, nonEmpty);
    var rest := FindAllFrom(pre, s, m.end, nonEmpty);
    if k == 0 {
      assert r[k] == m.value;
      assert GroupAt(pre, s, m.start, nonEmpty, r[k]);
    } else {
      assert r[k] == rest[k - 1];
      FindAllSound(pre, s, m.end, nonEmpty, k - 1);
      var p :| m.end <= p && GroupAt(pre, s, p, nonEmpty, rest[k - 1]);
      assert i <= p && GroupAt(pre, s, p, nonEmpty, r[k]);
    }
  }

  /** `re.findall(pattern, s)`. */
  function FindAll(pre: string, s: string, nonEmpty: bool): seq<string> {
    FindAllFrom(pre, s, 0, nonEmpty)
  }

  /** The elements of `xs` that are not the empty string, in order. */
  function NonEmpty(xs: seq<string>): seq<string> {
    if xs == [] then []
    else (if xs[0] != [] then [xs[0]] else []) + NonEmpty(xs[1..])
  }

  /** A prefix whose first character occurs nowhere else in it and is not a quote:
      no second occurrence can start inside an occurrence of `pre` or on its closing quote. */
  predicate Unrepeating(pre: string) {
    |pre| > 0 && pre[0] != '"' && forall k :: 1 <= k < |pre| ==> pre[k] != pre[0]
  }

  lemma IdPrefixUnrepeating()
    ensures Unrepeating(IdPrefix)
  {
  }

  /** Searching from `i` finds what searching from `j` finds when nothing matches in between. */
  lemma {:induction false} SearchSkips(pre: string, s: string, i: nat, j: nat, nonEmpty: bool)
    requires i <= j <= |s| + 1
    requires forall p :: i <= p < j ==> MatchAt(pre, s, p, nonEmpty).None?
    ensures SearchFrom(pre, s, i, nonEmpty) == SearchFrom(pre, s, j, nonEmpty)
    decreases j - i
  {
    if i < j {
      SearchSkips(pre, s, i + 1, j, nonEmpty);
    }
  }

  /** The `[^"]+` pattern matches where the `[^"]*` pattern matches with a non-empty group. */
  lemma MatchAtNonEmpty(pre: string, s: string, p: nat)
    ensures MatchAt(pre, s, p, true) ==
      if MatchAt(pre, s, p, false).Some? && MatchAt(pre, s, p, false).value.value != []
      then MatchAt(pre, s, p, false) else None
  {
  }

  /** After an empty `pre""` at `m.start`, no match can start before `m.end`. */
  lemma NoMatchInsideEmpty(pre: string, s: string, m: Match, p: nat)
    requires Unrepeating(pre)
    requires MatchAt(pre, s, m.start, false) == Some(m) && m.value == []
    requires m.start < p < m.end
    ensures MatchAt(pre, s, p, false).None?
  {
    assert m.end == m.start + |pre| + 1;
    if p + |pre| <= |s| {
      var k := p - m.start;
      if k < |pre| {
        assert s[p] == s[m.start..m.start + |pre|][k] == pre[k];
      } else {
        assert s[p] == '"';
      }
      assert s[p..p + |pre|][0] == s[p];
    }
  }

  /** With no match in `[i, j)`, scanning from `i` finds what scanning from `j` finds. */
  lemma FindAllSkips(pre: string, s: string, i: nat, j: nat, nonEmpty: bool)
    requires i <= j <= |s|
    requires forall p :: i <= p < j ==> MatchAt(pre, s, p, nonEmpty).None?
    ensures FindAllFrom(pre, s, i, nonEmpty) == FindAllFrom(pre, s, j, nonEmpty)
  {
    SearchSkips(pre, s, i, j, nonEmpty);
  }

  /** With no match from `i` on, scanning from `i` finds nothing. */
  lemma FindAllNone(pre: string, s: string, i: nat, nonEmpty: bool)
    requires i <= |s|
    requires forall p :: i <= p <= |s| ==> MatchAt(pre, s, p, nonEmpty).None?
    ensures FindAllFrom(pre, s, i, nonEmpty) == []
  {
    SearchSkips(pre, s, i, |s| + 1, nonEmpty);
  }

  /** The `[^"]+` scan yields exactly the non-empty groups of the `[^"]*` scan,
      in the same order: an empty `tvg-id=""` is skipped and scanning goes on. */
  lemma {:induction false} FindAllNonEmpty(pre: string, s: string, i: nat)
    requires Unrepeating(pre)
    requires i <= |s|
    ensures FindAllFrom(pre, s, i, true) == NonEmpty(FindAllFrom(pre, s, i, false))
    decreases |s| - i
  {
    var found := SearchFrom(pre, s, i, false);
    if found.None? {
      forall p | i <= p <= |s| ensures MatchAt(pre, s, p, true).None? {
        MatchAtNonEmpty(pre, s, p);
      }
      FindAllNone(pre, s, i, true);
    } else {
      var m := found.value;
      var rest := FindAllFrom(pre, s, m.end, false);
      assert FindAllFrom(pre, s, i, false) == [m.value] + rest;
      assert ([m.value] + rest)[1..] == rest;
      assert NonEmpty([m.value] + rest) == (if m.value != [] then [m.value] else []) + NonEmpty(rest);
      FindAllNonEmpty(pre, s, m.end);
      forall p | i <= p < m.start ensures MatchAt(pre, s, p, true).None? {
        MatchAtNonEmpty(pre, s, p);
      }
      MatchAtNonEmpty(pre, s, m.start);
      if m.value != [] {
        FindAllSkips(pre, s, i, m.start, true);
        assert FindAllFrom(pre, s, m.start, true) == [m.value] + FindAllFrom(pre, s, m.end, true);
      } else {
        forall p | i <= p < m.end ensures MatchAt(pre, s, p, true).None? {
          if m.start < p {
            NoMatchInsideEmpty(pre, s, m, p);
          }
          MatchAtNonEmpty(pre, s, p);
        }
        FindAllSkips(pre, s, i, m.end, true);
      }
    }
  }
}
