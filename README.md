# Unified EPG merger and gap finder, modelled in Dafny

Two batch scripts of an IPTV guide aggregator, modelled and proved in Dafny.

- The **merger** (`merge_epg.py`) reads an M3U playlist and builds an alias table, mapping each channel id to a display name. It concatenates the top-level children of several XMLTV guide chunks under one `<tv generator-info-name="Unified EPG">` root. For every alias id the merged guide lacks, it injects a minimal `<channel>`. It then writes the XML declaration, the DOCTYPE line and the tree, and removes its temporary files.
- The **gap finder** (`find_missing_epg.py`) compares the playlist's `tvg-id`s with the channel ids of the unified guide. It reports the missing ids in sorted order.

Files:

- `text.dfy` (module `Text`) holds Python's string behaviour as the scripts use it: `isspace`, `strip`, `startswith`, `splitlines`, code-point ordering of `str`, and decimal formatting.
- `attr_scan.dfy` (module `AttrScan`) holds the regular expressions `tvg-id="([^"]*)"`, `tvg-id="([^"]+)"` and `tvg-name="([^"]+)"`. Each is an explicit left-to-right scan with the semantics of `re.search` and `re.findall`.
- `playlist.dfy` (module `Playlist`) covers the module level of the merger:
  - `ids_in_playlist`;
  - the `#EXTINF` alias loop (the `BuildAliases` method, proved against the `Aliases` function);
  - the name fallback;
  - the all-or-nothing failure;
  - the credential and fetch branches.
- `guide.dfy` (module `Guide`) covers `main` of the merger:
  - the `Tv` root as a class whose `children` are appended to;
  - the chunk merge, and the injection loop with its `added` counter;
  - the output text;
  - the `chunk{i}.xml` / `chunk{i}.xml.gz` names and the cleanup list.
- `missing_report.dfy` (module `MissingReport`) covers the gap finder: the guide ids, the playlist ids, `sorted(playlist_ids - unified_ids)`, the report branch and the exit status.

The model follows the code of the two scripts. `find_missing_epg.py` compares channel ids only. It has no programme index, no time window and no ranking, so none of these is modelled.

Some of the merger's behaviour matters most and is easy to miss:

- An alias is recorded only when its *stripped* id is one of the *unstripped* ids found anywhere in the text.
- The display name is computed before that membership test. So an `#EXTINF` line whose first `tvg-id` group is not blank, with no non-empty `tvg-name` and no comma, raises `IndexError` even when its id would not be kept. That error is caught by the broad `try` and leaves the merger with no aliases at all.

## Model

| member | source | states |
|---|---|---|
| `Text.Strip` | merge_epg.py:53 | `strip()` gives the empty string exactly when the input is all white space (Python's `isspace` set), and the result never starts or ends in white space |
| `Text.StripBetweenBlanks` | merge_epg.py:53 | `strip()` removes the white space at both ends and nothing else: cutting any blank prefix and blank suffix off the input, so that what remains neither starts nor ends in white space, gives exactly `strip()` |
| `Text.StripIdempotent` | merge_epg.py:53 | stripping an already stripped id changes nothing |
| `Text.IndexFrom` | merge_epg.py:60 | returns the first occurrence of the character at or after the start index, or none when it does not occur |
| `Text.Lines` | merge_epg.py:46 | no line produced by `splitlines` contains a line separator |
| `Text.LinesRoundTrip` | merge_epg.py:46 | each line followed by a newline gives back the text, with a final newline added if it had none; splitting loses nothing else |
| `Text.LessIrreflexive` | find_missing_epg.py:63 | no string sorts before itself |
| `Text.LessTransitive` | find_missing_epg.py:63 | the string order used by `sorted` is transitive |
| `Text.LessTotal` | find_missing_epg.py:63 | any two distinct strings are ordered one way or the other |
| `Text.Decimal` | merge_epg.py:78-79 | `f"{idx}"` is a non-empty run of decimal digits with no leading zero |
| `Text.DecimalValue` | merge_epg.py:78-79 | the digits of `f"{idx}"`, read most significant first, denote `idx` |
| `AttrScan.MatchAt` | merge_epg.py:41 | a match at a position has the prefix there, a group ending at the next quote that holds no quote, and, for `[^"]+`, a non-empty group |
| `AttrScan.SearchFrom` | merge_epg.py:50 | `re.search` returns the leftmost match, with nothing matching before it, or none when nothing matches at all |
| `AttrScan.FindAllFrom` | merge_epg.py:41 | every group `findall` returns is free of quotes; with `[^"]+` none is empty |
| `AttrScan.FindAllEmpty` | merge_epg.py:41 | `findall` returns nothing exactly when the pattern matches at no position |
| `AttrScan.FindAllSound` | merge_epg.py:41 | every group `findall` returns is the group of a match of the pattern in the text |
| `AttrScan.FindAllNonEmpty` | find_missing_epg.py:62 | the `[^"]+` scan returns exactly the non-empty groups of the `[^"]*` scan, in order: `tvg-id=""` yields nothing and scanning goes on |
| `Playlist.RawIds` | merge_epg.py:41 | `raw_ids` holds only quote-free groups, and is empty exactly when `tvg-id="..."` occurs nowhere in the text |
| `Playlist.IdsInPlaylist` | merge_epg.py:41-43 | `ids_in_playlist` holds exactly the raw `tvg-id` groups, from anywhere in the text and unstripped, that contain a non-white-space character |
| `Playlist.EntryId` | merge_epg.py:47-56 | a line offers an id exactly when it starts with `#EXTINF`, has a `tvg-id` group, and its first such group is not blank; the id offered is that group stripped, so it is non-empty and stripped |
| `Playlist.EntryName` | merge_epg.py:59-60 | the name is missing (the `IndexError`) exactly when the line has no non-empty `tvg-name` and no comma; with a non-empty `tvg-name` it is the first such group stripped; a name is always stripped |
| `Playlist.AfterFirstComma` | merge_epg.py:60 | `line.split(",", 1)[1]` fails exactly when the line has no comma |
| `Playlist.NameFallsBackToFirstComma` | merge_epg.py:60 | without a `tvg-name`, the name is the stripped text after the first comma |
| `Playlist.ClassifyLine` | merge_epg.py:47-60 | a line raises exactly when it starts with `#EXTINF`, its first `tvg-id` group is not blank, and it has neither a non-empty `tvg-name` nor a comma; it is skipped exactly when it offers no id; otherwise it yields the id and name it offers |
| `Playlist.Lookup` | merge_epg.py:63-64 | a key is absent from the dict exactly when it is not among its keys |
| `Playlist.Put` | merge_epg.py:64 | `aliases[vid] = vname` keeps an existing key in its place and appends a new key at the end: the dict's insertion order |
| `Playlist.PutLookup` | merge_epg.py:64 | after `aliases[vid] = vname`, `vid` maps to `vname` and every other key maps to what it mapped to before |
| `Playlist.PutKeepsDistinct` | merge_epg.py:64 | setting a key never makes a key occur twice |
| `Playlist.ClassifiedIdsProper` | merge_epg.py:53-56 | every id a line offers to the loop is non-empty and stripped |
| `Playlist.AliasesKeys` | merge_epg.py:45-64 | when the loop completes, its table has distinct keys, all in `ids_in_playlist`, and all non-empty and stripped |
| `Playlist.BuildAliases` | merge_epg.py:45-69 | the line loop, run imperatively, yields the table that `AliasMap` specifies, including the empty table when a line raises |
| `Playlist.AliasMap` | merge_epg.py:45-69 | `aliases` after a successful fetch: the loop's table over the lines' results, or the empty table when a line raised; its keys are characterised by `AliasMapKeys` and its values by `LastWriterWins` |
| `Playlist.BrokenLineEmpties` | merge_epg.py:60 | one raising line anywhere makes the whole loop raise |
| `Playlist.AliasesFailIff` | merge_epg.py:60-69 | the loop raises exactly when some line raises, that is (by `ClassifyLine`) some line starts with `#EXTINF`, its first `tvg-id` group is not blank, and it has no non-empty `tvg-name` and no comma |
| `Playlist.LastWriterWins` | merge_epg.py:63-64 | each key maps to the name given by the last qualifying line for it, and a key is present exactly when such a line exists |
| `Playlist.BrokenLineEmptiesMap` | merge_epg.py:59-69 | an `#EXTINF` line whose first `tvg-id` group is not blank, with no non-empty `tvg-name` and no comma, empties the alias map, even when its id would not be kept |
| `Playlist.AliasMapKeys` | merge_epg.py:53-64 | alias keys are distinct, non-empty and stripped, and each appears unstripped in `ids_in_playlist`, so `tvg-id=" X "` counts only when a bare `X` also appears |
| `Playlist.PlaylistAliases` | merge_epg.py:26-72 | the aliases are empty unless both credentials are set and the fetch succeeds; in that case they are the parsed alias map |
| `Guide.ChannelIds` | merge_epg.py:97 | `existing`: the `id` of every `channel` child of the root, without the `None` of a channel lacking one; `ChannelIdsAppend` and `InjectionCoversAliases` state how it grows |
| `Guide.ChannelIdsAppend` | merge_epg.py:97 | the channel ids of two runs of children together are the union of the ids of each |
| `Guide.Tv.constructor` | merge_epg.py:90 | the root is `tv` with `generator-info-name="Unified EPG"` and has no children |
| `Guide.Tv.Append` | merge_epg.py:94 | `tv.append(elem)` puts the element last and changes nothing else |
| `Guide.Tv.AddChannel` | merge_epg.py:101-103 | `SubElement` appends a `channel` with that id and a single `display-name` holding the name |
| `Guide.Concat` | merge_epg.py:91-94 | the children of the merged root: every chunk's top-level children, chunk after chunk; `ConcatAppend` and `ConcatLength` state that nothing is lost, reordered or deduplicated |
| `Guide.ConcatAppend` | merge_epg.py:91-94 | merging chunk lists one after the other gives the two merges one after the other |
| `Guide.ConcatLength` | merge_epg.py:91-94 | the merged root has exactly as many children as the chunks together; nothing is deduplicated |
| `Guide.MergeChunks` | merge_epg.py:90-94 | a fresh `tv` root whose children are every chunk's top-level children, in chunk order and in order within each chunk |
| `Guide.InjectMissing` | merge_epg.py:97-104 | the existing children are kept unchanged as a prefix. After them come, in alias-table order, the channels for the aliases whose id was not a channel id before the loop. `added` is their number |
| `Guide.Injected` | merge_epg.py:99-104 | the channels step 3 appends, in alias-table order, one per alias whose id is not in `existing`; `InjectedCount`, `InjectedIds` and `InjectedNames` state how many, which ids and which names |
| `Guide.InjectedCount` | merge_epg.py:99-104 | with distinct alias ids, exactly the number of alias ids outside the existing set, \|A \ E\|, are injected |
| `Guide.InjectedIds` | merge_epg.py:99-103 | the injected channels carry exactly the alias ids that are not existing ids |
| `Guide.InjectedNames` | merge_epg.py:101-103 | each injected element is a channel whose id is not an existing id and which has one display name, the alias name of that id |
| `Guide.InjectionCoversAliases` | merge_epg.py:97-104 | after injection the guide's channel ids are the old ones together with every alias id |
| `Guide.InjectOneMissingChannel` | merge_epg.py:97-104 | for alias `XYZ.us` -> `My Channel` over a guide with only `ABC.us`, exactly one channel is appended and `ABC.us` stays as it was |
| `Guide.OutputText` | merge_epg.py:109-112 | the written text: the XML declaration line, the DOCTYPE line, then the serialised tree; `OutputLines` states it line by line |
| `Guide.OutputLines` | merge_epg.py:109-112 | the output's first line is the XML declaration, its second the DOCTYPE naming `xmltv.dtd`, and its remaining lines are those of the serialised tree |
| `Guide.ChunkXml` | merge_epg.py:79 | `chunk{idx}.xml`; `ChunkNamesDistinct` states that no two chunks share it |
| `Guide.ChunkGz` | merge_epg.py:78 | `chunk{idx}.xml.gz`; `ChunkNamesDistinct` states that no two chunks share it |
| `Guide.ChunkNamesDistinct` | merge_epg.py:78-79 | distinct chunks get distinct `.xml` names and distinct `.xml.gz` names, and no `.xml` name is a `.xml.gz` name, so no download overwrites another's file |
| `Guide.ReplaceAll` | merge_epg.py:116 | `str.replace`: every non-overlapping occurrence, leftmost first, replaced; `ReplaceAbsent` and `ReplaceExtension` state what it does to the names it is given |
| `Guide.ReplaceAbsent` | merge_epg.py:116 | `str.replace` leaves a string in which the pattern does not occur unchanged |
| `Guide.ReplaceExtension` | merge_epg.py:116 | `.replace(".xml", ".xml.gz")` on a dot-free stem plus `.xml` gives that stem plus `.xml.gz` |
| `Guide.CleanupList` | merge_epg.py:116 | the removal list: every decompressed name, then each with `.xml` replaced by `.xml.gz`; `CleanupRemovesDownloads` states which files that is |
| `Guide.CleanupRemovesDownloads` | merge_epg.py:116 | the removal list is every `chunk{i}.xml` followed by every `chunk{i}.xml.gz`: exactly the files the downloads wrote |
| `Guide.RunMerge` | merge_epg.py:74-120 | the run aborts exactly when a chunk fails. Otherwise the output is the preamble and the merged-and-injected tree, `added` is the number injected, and every temporary file is removed |
| `MissingReport.GuideIds` | find_missing_epg.py:26 | the guide ids are never empty |
| `MissingReport.GuideIdsAppend` | find_missing_epg.py:26 | an added programme or other element leaves the guide ids unchanged; an added channel with a non-empty id adds that id |
| `MissingReport.PlaylistIds` | find_missing_epg.py:62 | the playlist ids are non-empty and quote-free |
| `MissingReport.PlaylistIdsAgree` | find_missing_epg.py:62 | the gap finder's playlist ids are exactly the merger's non-empty raw ids; the merger's `ids_in_playlist` is their non-blank part |
| `MissingReport.Insert` | find_missing_epg.py:63 | inserting into a strictly ascending list keeps it strictly ascending and adds exactly that element |
| `MissingReport.SortedSet` | find_missing_epg.py:63 | `sorted(set(xs))` is strictly ascending and has exactly the members of `xs` |
| `MissingReport.LessAsymmetric` | find_missing_epg.py:63 | no two strings each sort before the other |
| `MissingReport.SortedUnique` | find_missing_epg.py:63 | two strictly ascending lists with the same members are equal, so `sorted` of a set has exactly one answer |
| `MissingReport.Uncovered` | find_missing_epg.py:63 | `playlist_ids - unified_ids` before sorting, as the scanned ids without the guide's; `UncoveredMembers` states its members |
| `MissingReport.UncoveredMembers` | find_missing_epg.py:63 | filtering out the guide ids keeps exactly the playlist ids not in the guide |
| `MissingReport.Missing` | find_missing_epg.py:62-63 | `missing` is strictly ascending, and x is in it exactly when x is a playlist id and not a guide id |
| `MissingReport.AddingChannelRemovesIt` | find_missing_epg.py:63 | adding a guide channel with id x removes x from `missing` and leaves every other entry in place |
| `MissingReport.NonChannelsIgnored` | find_missing_epg.py:26 | adding a programme or any other non-channel element leaves `missing` unchanged |
| `MissingReport.MakeReport` | find_missing_epg.py:65-70 | the missing branch prints a count equal to the number of listed ids, lists them in sorted order, and is taken only for a non-empty list |
| `MissingReport.AllClearIff` | find_missing_epg.py:65-66 | the all-clear branch is taken exactly when every playlist id is a guide id |
| `MissingReport.RunGapFinder` | find_missing_epg.py:20-70 | the exit status is 1 exactly when the guide cannot be loaded, a credential is unset, or the fetch fails. Otherwise the run reports on `missing`, and a non-empty `missing` does not change the status |
| `MissingReport.CredentialsCheckedFirst` | find_missing_epg.py:34-36 | with a credential unset, the outcome does not depend on the fetch: it is decided before any request |

## Left out

- HTTP requests (URLs, headers, timeouts, `raise_for_status`) are not modelled. Each request is an input that either gives a text or parsed chunk, or fails.
- gzip decompression, writing the chunk and output files, and `os.remove` are not modelled. The file names and the list of files removed are kept. A failed removal is ignored by the script, so it is not modelled.
- ElementTree parsing and `ET.tostring` are left out. A guide is a sequence of elements. Only a channel's `id` and display names, and a programme's `channel` and `start`, are kept; everything else passes through. Serialisation is the function parameter `render` of `Guide.RunMerge`.
- The environment variables are `Option<string>` parameters. Console output is kept only as the `Report` value and the exit status.
- `Text.Lines`: Python's `splitlines` also splits on `\r`, `\r\n`, `\v`, `\f`, `\x1c`-`\x1e`, `\x85`, `\u2028` and `\u2029`. The model splits on `\n` only. A `\r` left at the end of a line is removed by `strip` wherever the scripts strip.
- `Guide.ChannelIds`: Python's existing-id set also contains `None` for a channel without an `id`. No alias key equals `None`, so the model leaves it out.
- `Guide.RunMerge`: the model does not separate a download failure in step 1 from a parse failure in step 2; either one aborts the run. The files written before the failure are left on disk by the script, and the model does not track them.
- The exit status of an uncaught exception (for example a guide file that exists but does not parse) is Python's default of 1.
- The `print` of the playlist URL and of the counts is not modelled.

