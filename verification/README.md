# Verification of the MacEvery index

MacEvery keeps one record per file in an SQLite table and a packed copy of these records in memory. A
journal written by triggers lets the packed copy catch up without a full load; a ranked search works over
either; a scanner keeps the table in step with the file system. Most pieces are fast forms of something
simple. This project states the simple form and proves that the fast one agrees with it, for all inputs and
all histories. `dafny verify dfyconfig.toml` checks everything.

| Part | Modules |
|---|---|
| records and changes | `Common`, `Records`, `Changes` |
| pattern and substring matching | `Glob`, `Patterns`, `LongFinder`, `WordFinder` |
| ranking and exact search | `Ordering`, `Selection`, `Ranking`, `Relevance`, `SqliteSearch`, `Planner` |
| change journal | `Journal`, `Retention`, `JournalRead` |
| scanner and cleanup | `Subtrees`, `Seen`, `Files`, `Scanner`, `Excludes` |
| packed index | `Metadata`, `Prefixes`, `Packing`, `PackedRows`, `Strings`, `Blocks`, `Entries`, `Deltas`, `PackedIndex`, `Loading`, `Reconcile`, `PackedSearch` |
| service | `Worlds`, `Handover`, `Service`, `Slots` |

The parts meet in two chains. The journal names every id whose row changed (`Journal.HistoryExtends`), so a
served delta reaches its target (`JournalRead.DeltaReachesTarget`); the packed index applies it as a map
update (`PackedIndex.CompactIndex.ApplyChangesWithLimits`); so the service only ever publishes a stamp whose
rows its backend holds (`Service.ServiceState.EnsureFresh`). And the planner's short-cuts return what a full
scan returns (`Planner.Search`), the packed scan returns the same (`PackedSearch.SearchTable`), so
`Service.ServiceState.Search` answers alike over both backends.

Bytes are the integers 0 to 255 and texts sequences of bytes; machine words appear as bit-vectors where the
code works on bits. `Ascending`, `Valid` and `Books` are the representation invariants; ghost fields
(`rows`, `model`, `live`, `considered`) hold the abstract value that the contracts speak about.

## Model

| member | source | states |
|---|---|---|
| Glob.GlobMatch | src/search.rs:982-1009 | The loop computes the last-star backtracking match (`Greedy`); it accepts only what the recursive `*`/`?` specification accepts, and exactly that when no `*` of the name can be read as a literal. |
| Glob.GreedyIsSound | src/search.rs:982-1009 | Last-star backtracking never accepts a name the specification rejects. |
| Glob.GreedyIsExact | src/search.rs:982-1009 | Returning only to the last star is enough: it is exact whenever name and pattern do not both hold `*`. |
| Glob.ExactForHaystack | src/search.rs:982-1009 | For one name, the matcher is right on every pattern if and only if the name holds no `*` (see Findings). |
| Glob.ExactForPattern | src/search.rs:982-1009 | For one pattern, the matcher is right on every name if and only if the pattern holds no `*`. |
| Patterns.LiteralsAreNecessary | src/search.rs:725-757 | Every literal run of a pattern occurs in every name the pattern accepts, so a name without the prepared literal can be refused at once. |
| Patterns.SingleLiteralIsExact | src/search.rs:739-757 | The single-literal path (a prefix, suffix or substring test) decides the specification for patterns with one literal run. |
| Patterns.ScoreMeaning | src/search.rs:739-757 | A glob score is given only to a name the specification accepts; when the pattern avoids the general matcher or there is no collision, to all of them; it is the pattern length plus twice the first position of the literal. |
| Patterns.ScoreExactForHaystack | src/search.rs:739-757 | For one name, scoring agrees with the specification on all patterns if and only if the name holds no `*`. |
| Patterns.ScoreExactForPattern | src/search.rs:739-757 | For one pattern, scoring agrees with the specification on all names if and only if it is all stars, has a single literal run, or holds no `*`. |
| Patterns.StarNameIsMissed | src/search.rs:739-757 | The file name `*` and the pattern `*?`: accepted by the specification, given no score. |
| Patterns.GlobScore | src/search.rs:739-757 | The prepared glob computes the score the preceding lemmas speak about. |
| Patterns.Find | src/search.rs:666-672 | Whatever the needle length, the finder returns the first occurrence, or none exactly when there is none. |
| LongFinder.BuildTable | src/search.rs:634-665 | Each entry of the fallback table is the longest proper border of that prefix of the needle. |
| LongFinder.ShiftIsSafe | src/search.rs:673-699 | No occurrence starts strictly between an offset and the offset after the skip. |
| LongFinder.FindLong | src/search.rs:673-699 | The first occurrence, wherever the comparison budget runs out and the linear search takes over. |
| LongFinder.LinearFind | src/search.rs:700-715 | With that table, the linear search finds the first occurrence. |
| WordFinder.FindBytes | src/search.rs:588-619 | The eight-bytes-at-a-time filter finds the first occurrence for needles of 2 to 7 bytes: no candidate is lost, candidates come in ascending order, all reads stay in bounds. |
| WordFinder.FirstCandidate | src/search.rs:601-611 | Walking the flagged lanes of one word from the lowest up finds the first occurrence that starts in the word, or shows there is none. |
| WordFinder.EqualLoadsAreFlagged | src/search.rs:601-604 | A lane whose byte equals the wanted one is always flagged by the borrow-based mask. |
| Ordering.ComparePaths | src/search.rs:392-424 | Comparing two split paths piece by piece is byte order on the whole paths, wherever each is split. |
| Ordering.KeysAreTotal | src/search.rs:445-456 | The result order (score, time descending, path length, path, index) is total and antisymmetric; only equal keys tie. |
| Ordering.BeforeTransits | src/search.rs:445-456 | It is transitive. |
| Selection.BestIsLeast | src/search.rs:463-522 | `Best` is a sorted part of the candidates of size min(K, n), and nothing left out precedes anything kept. |
| Selection.BestIgnoresOrder | src/search.rs:463-522 | It depends on the candidates as a multiset only. |
| Selection.OfferIsBest | src/search.rs:476-511 | Offering one more candidate to the best K of those before gives the best K of all. |
| Selection.LazyRejectionIsSafe | src/search.rs:476-503 | A candidate refused on score, time and length, before its path is built, does not precede the worst kept one. |
| Selection.UnvisitedCannotWin | src/search.rs:282-289 | If K results are kept and the worst scores below a bound, candidates at or above the bound change nothing. |
| Selection.Consider | src/search.rs:476-511 | One step of the heap, with its early rejections, offers exactly the given candidate. |
| Ranking.FuzzyMatchesSubsequences | src/search.rs:949-976 | A fuzzy score exists if and only if the characters of the needle occur in the name in order. |
| Ranking.ComputeFuzzyScore | src/search.rs:949-976 | The loop computes that score. |
| Ranking.RankLowered | src/search.rs:895-946 | The loops over path filters and terms compute `Rank`, of which the following rows say, in terms of names and paths, what it prefers. |
| Relevance.MatchesHavePlaces | src/search.rs:928-942 | A plain term matches exactly the rows that have a place: the name is it, starts with it, holds it, the path holds it, or one of them spells it where fuzzy matching is on. |
| Relevance.PlaceScores | src/search.rs:928-942 | The place alone decides the score, by the position of the first occurrence or the leftmost spelling. |
| Relevance.ExactNameBeatsOthers | src/search.rs:928-942 | The exact name scores below every other match of the term, by at least 100. |
| Relevance.StartAgainstInside | src/search.rs:930-933 | A name that starts with the token beats one that first holds it at i if and only if the token is shorter than 150 + i; so always up to 150 bytes. |
| Relevance.EarlierInsideWins | src/search.rs:932-933 | Of two names that hold the token further in, exactly the earlier occurrence wins. |
| Relevance.NameAgainstPath | src/search.rs:930-935 | When a match in the name beats one in the path only, and which of two matches in paths wins: exact conditions on token length and positions. |
| Relevance.FoundAgainstSpelled | src/search.rs:934-940 | The same for a path match against a spelled name, two spelled names, and a spelled name against a spelled path. |
| Relevance.FuzzyValue | src/search.rs:949-976 | The fuzzy score is three times the start plus five times the gaps plus the length of the leftmost spelling, and exists whenever there is any spelling. |
| Relevance.PathOnlyScores | src/search.rs:924-927 | Restricted to paths, a term matches exactly the paths that contain it and scores by the first position, capped at 500. |
| Relevance.GlobScores | src/search.rs:916-923 | A glob scores by where its first literal begins, in the name if that matches, else in the path. |
| Relevance.GlobOrder | src/search.rs:916-923 | Of two names that match a glob the earlier literal wins; a matching name beats a matching path unless its literal begins 170 bytes further in. |
| Relevance.ExactNameRanksFirst | src/search.rs:913-945 | With the path-length penalty, the exact name ranks first if and only if its path is not longer by as much as the other match costs; so always below 100 bytes of difference (see Findings). |
| Relevance.LongPathLoses | src/search.rs:913-945 | For `a`, the name `a` on a path of 500 bytes ranks behind `ab` on a path of 100. |
| Relevance.RankIgnoresTermOrder | src/search.rs:913-945 | The order in which terms are given does not matter. |
| Relevance.BetterMatchesRankFirst | src/search.rs:913-945 | A row that every term matches at least as well, on a path that is not longer, does not rank behind. |
| Relevance.PlainFilterMeaning | src/search.rs:778-791 | A plain path filter asks for a substring, or for a component between slashes. |
| Relevance.GlobFilterMeaning | src/search.rs:778-791 | A glob path filter asks the specification about the path, or about some component, for paths without `*`. |
| Ranking.UnneededTextIsIgnored | src/search.rs:839-844 | A query that declares it needs no text ranks every row as if its texts were empty. |
| Ranking.UnneededBasenameIsIgnored | src/search.rs:842-844 | A path-only query, or one without terms, ranks every row as if its base name were empty. |
| Ranking.NonPrefixScoresHigh | src/search.rs:48-53 | With one plain term, a base name that does not start with the term scores at least 250. |
| Ranking.TermWithoutLiteralScoresHigh | src/search.rs:126-138 | A term whose literal is not in the base name contributes at least 550, or 520 plus the pattern length for a glob. |
| Ranking.MatchHoldsLiteral | src/search.rs:86-93 | A match that is not fuzzy contains the literal of its term in the base name or in the path. |
| Ranking.RecencyFits | src/search.rs:910-911 | The score of a query without terms fits 64 bits if and only if the modification time is absent or above the least integer by more than 10,000 (see Findings). |
| Ranking.RecencyOverflows | src/search.rs:910-911 | At the least 64-bit time it does not. |
| Planner.Search | src/search.rs:34-108 | For every table, query and limit, whichever passes are tried, the result is the one of ranking every row, sorting and truncating. |
| Planner.SearchByPrefix | src/search.rs:42-54 | If the basename-prefix pass answers, it answers with the full-scan result. |
| Planner.SearchByLiteral | src/search.rs:64-96 | If the literal passes answer, by bound or by union, they answer with the full-scan result. |
| Planner.PrefixPassIsBounded | src/search.rs:109-125 | Rows outside the basename range score at least 250. |
| Planner.LiteralPassIsBounded | src/search.rs:126-173 | Rows whose base name lacks the selected literal score at least the bound of its term. |
| Planner.ExtensionPassIsComplete | src/search.rs:55-63 | Rows outside the extension pass match nothing. |
| Planner.OutsideUnionIsNoMatch | src/search.rs:86-93 | Without fuzzy matching, a row in neither literal pass matches nothing. |
| Planner.UnionIsComplete | src/search.rs:86-95 | The base-name pass and the path pass together rank every matching row exactly once. |
| Planner.BoundedPassSuffices | src/search.rs:77-84 | A pass that leaves out only rows at or above the bound gives the full-scan result once it is complete below the bound. |
| SqliteSearch.OwnedTopHits.ConsiderRecord | src/search.rs:229-281 | Considering a row adds its key, if it has one, to the candidates considered; the heap stays the best K of them with the rows that belong to them. |
| SqliteSearch.OwnedTopHits.IsCompleteBelow | src/search.rs:282-289 | True exactly when K candidates are kept and the worst scores below the bound. |
| SqliteSearch.OwnedTopHits.Finish | src/search.rs:290-300 | The results are the rows of the best K candidates considered, in order. |
| Journal.StepExtends | src/db.rs:908-954 | Every operation (an insert, an update that may change id and path, a delete, an `OR REPLACE` write with its hidden victims, an installation or loss of the journal) leaves the journal naming every id whose row it changed. |
| Journal.HistoryExtends | src/db.rs:908-954 | Over any history of committed and rolled back transactions the journal between two states names every id at which their rows differ, as long as it is stored. |
| Journal.StampDeterminesRows | src/db.rs:145-150 | If a history ends at the stamp it started from, it ends with the same rows. |
| Retention.HistoryKeepsBooks | src/db.rs:906-954 | While the journal is not tampered with, the stored revisions are exactly those above the floor up to the current one, and the floor is exact: it is the revision from which the journal is kept, or the last pruning less the retention if that is later. |
| Retention.JournalIsBounded | src/db.rs:948-954 | So the journal never reaches retention plus prune interval entries. |
| Retention.RecentRevisionsAreStored | src/db.rs:948-954 | Every revision since the last installation that is within the newest 16,384 is stored. |
| Retention.FloorStaysBehind | src/db.rs:948-954 | Without a new installation the floor never rises above its old value or 16,384 revisions behind the current one. |
| JournalRead.DeltaReachesTarget | src/db.rs:985-1097 | For every history and every base with a stored span, the final rows of the mentioned ids turn the records of the base into exactly the records of the target. |
| JournalRead.UnmentionedIsUnchanged | src/db.rs:1037-1058 | An id that no event of a stored span mentions has the same row at both ends. |
| JournalRead.FileChangesSince | src/db.rs:985-1097 | A delta is served if and only if the lineage matches, the journal reaches back and is gapless, and events, ids and bytes are within the limits; it is then the final-state delta with ascending ids. Each refusal is given exactly when its own condition holds and none checked earlier does. |
| JournalRead.ReadIds | src/db.rs:1032-1061 | The cursor loop over the events collects exactly the mentioned ids in ascending order; it reports a gap if and only if one comes before the ids exceed the limit. |
| JournalRead.ReadRows | src/db.rs:1063-1096 | The final record, or absence, of every id; refused exactly when the payload exceeds the byte limit. |
| JournalRead.OnlyLimitsRefuse | src/db.rs:985-1097 | On an undisturbed history every base since the installation of the journal is served if and only if events, ids and bytes are within the limits: the batch limit lies inside the retention. |
| Seen.SeenIds.Insert | src/db.rs:101-118 | An admitted insertion adds exactly that id and no other, for every 64-bit id; it is refused exactly when it needs a page and all are in use, and then changes nothing. |
| Seen.SeenIds.Contains | src/db.rs:120-127 | Membership in the set so built, with no false positive and no false negative. |
| Subtrees.RangeIsSubtree | src/db.rs:1751-1770 | Root or key range holds exactly for the root and the paths below it, byte for byte. |
| Files.CandidatesAreTheRest | src/db.rs:18-22 | The candidate query selects exactly the rows of the subtree after the cursor. |
| Files.SelectPage | src/db.rs:1259-1283 | A page is the first 256 candidates in path order. |
| Files.FileTable.DeleteUnseenUnder | src/db.rs:1255-1293 | Paging through a subtree while rows are deleted between the pages removes exactly its unseen rows: none skipped, none twice. |
| Files.FileTable.DeleteUnseenUnderRoots | src/db.rs:1245-1297 | The rows at or below some root whose id is not in the seen set are deleted and counted, all others kept. |
| Scanner.Writer.Upsert | src/db.rs:195-262 | The exact writer keeps an unchanged row with its generation, otherwise writes under the id of the path; it records the id it touched unless the budget is spent, and reports whether a row was written. |
| Scanner.Writer.ScanPath | src/scanner.rs:249-334 | The recursive scan delivers exactly what a complete visit of the observed tree delivers, in order and with its warnings, unless the id budget is spent. |
| Scanner.ScanStaysUnderRoots | src/scanner.rs:249-334 | Scans of trees rooted at the given roots deliver only rows at or below them. |
| Scanner.RefreshRoots | src/scanner.rs:172-216 | It falls back if and only if the scan warned or the ids of the visited rows need more pages than the budget. Otherwise the exact result of the scan; after a fallback exactly the legacy outcome on the rows from before. |
| Scanner.RefreshLegacy | src/scanner.rs:164-216 | The legacy refresh deletes by generation after a scan without warnings and defers cleanup otherwise. |
| Scanner.LegacyOutcomeIsUnique | src/scanner.rs:164-216 | The legacy outcome is determined, so the fallback equals a legacy refresh alone. |
| Scanner.WritersStayAlike | src/db.rs:195-262 | Exact and legacy writers agree on everything but the generation, and legacy stamps every visited row. |
| Scanner.RefreshesAgree | src/scanner.rs:172-216 | Exact and legacy refresh leave the same rows up to the generation if and only if no unvisited row under the roots carries a generation at or above the new one (see Findings). |
| Scanner.NewerLeftoverSurvivesLegacy | src/db.rs:14-18 | A row stamped 7 under a root visited as empty at generation 5: removed by the exact refresh, kept by the legacy one. |
| Scanner.ExactRefreshMeaning | src/scanner.rs:156-216 | After an exact refresh the paths under the roots are exactly the visited ones with the visited contents; new rows carry the new generation; confirmed rows keep id and `indexed_at`; nothing outside the roots changes. |
| Scanner.UnchangedRowsAreKept | src/db.rs:195-222 | The exact writer leaves a row alone, generation and all, when every visit of its path delivers its own contents. |
| Scanner.RefreshPath | src/scanner.rs:82-154 | Refreshing one path: skipped when excluded, failed without change when the look fails, otherwise the exact outcome, or, if and only if the scan warned or needs more pages than the budget, the legacy outcome on the rows from before. |
| Scanner.RefreshPathLegacy | src/scanner.rs:82-154 | The same for the legacy writer. |
| Scanner.PathRefreshMeaning | src/scanner.rs:108-139 | After refreshing a path the rows at or below it are exactly the visited ones if and only if no orphan is left below something that is not a directory (see Findings); nothing outside changes. |
| Scanner.OrphanSurvives | src/scanner.rs:112-137 | A plain file `/a` without a directory row of its own, and a row `/a/b`: the row survives the refresh of `/a`. |
| Scanner.DeleteStaleUnderRoots | src/db.rs:1223-1241 | Deletes exactly the rows under the roots with an older generation. |
| Scanner.DeletePathPrefix | src/db.rs:1193-1202 | Deletes exactly the rows at or below the path. |
| Scanner.NextGeneration | src/scanner.rs:448-459 | The least generation that is above the last one, unless the integer range is spent, and does not lag behind the clock. |
| Excludes.ExcludeMatcher.Excluded | src/scanner.rs:398-416 | The matcher grouped by first component excludes a path exactly when some pattern occurs as a window of its components. |
| Excludes.ExcludeMatcher.constructor | src/scanner.rs:383-397 | Grouping keeps exactly the given patterns. |
| Metadata.MetadataBlock.Write | src/compact_index.rs:373-432 | Writing a row, in narrow form or by turning wide, stores exactly the six given optional values, keeps all others, never turns a wide block narrow, and widens only when the escapes that the row needs, or the room granted for them, would outgrow the wide form. |
| Metadata.MetadataBlock.WriteNarrow | src/compact_index.rs:507-548 | A narrow write keeps free list, codes and rows consistent, stores the values, and appends exactly the slots reserved for it. |
| Metadata.MetadataBlock.Prepare | src/compact_index.rs:490-505 | A base is fixed by the first value of its field, never moves, and leaves half a span on either side of that value; a code is given exactly to the values within its 31-bit span. |
| Metadata.MetadataBlock.MakeWide | src/compact_index.rs:451-466 | Widening preserves every value. |
| Metadata.MetadataBlock.Value | src/compact_index.rs:358-363 | Every value that is not NULL decodes to what was last written there. |
| Metadata.MetadataBlock.Push | src/compact_index.rs:365-367 | Appending keeps all earlier rows. |
| Metadata.MetadataBlock.Update | src/compact_index.rs:369-371 | Updating changes one row only. |
| Metadata.MetadataBlock.CapacityBytes | src/compact_index.rs:434-449 | A narrow block with its escapes and bases never occupies more than the wide form. |
| Metadata.MetadataBlock.ReserveEscapes | src/compact_index.rs:389-408 | The grown escape capacity covers the need and still fits. |
| Metadata.ReservationIsEnough | src/compact_index.rs:389-408 | The clamped reservation is never below the need nor above what fits, so its subtraction cannot underflow. |
| Metadata.MissingSlots | src/compact_index.rs:379-384 | The number of slots computed before the write, from new escapes, old escapes and free slots, is the number that releasing and placing field by field appends. |
| Metadata.EachSlotHasOneOwner | src/compact_index.rs:507-548 | Every escape slot is owned by exactly one live code or lies exactly once on the free list. |
| Metadata.SlotCount | src/compact_index.rs:507-548 | Live codes and free slots together are all the slots. |
| Prefixes.PrefixPool.Intern | src/compact_index.rs:233-312 | An admitted text keeps the id it has or gets the next one; known texts are always found; a new one is refused only when ids, limit or the room granted do not allow it, and then nothing changes; capacity stays within the limit. |
| Prefixes.PrefixPool.Lookup | src/compact_index.rs:209-224 | A text is found if and only if it was admitted, under its own id, whatever the hash collisions. |
| Prefixes.InsertSlot | src/compact_index.rs:226-231 | Probing ends at an empty slot and keeps every admitted text reachable. |
| Prefixes.SomeSlotIsEmpty | src/compact_index.rs:209-231 | A probe sequence from any home meets an empty slot while there are more slots than texts. |
| Prefixes.Doubling | src/compact_index.rs:254-258 | Growth keeps the number of slots a power of two, as the masking of the hash needs. |
| Packing.SliceReads | src/compact_index.rs:644-661 | Each of the four texts is read back from the bytes laid out for the row, however they share suffixes. |
| Packing.SharesWheneverItCan | src/compact_index.rs:644-661 | A text of a row is stored anew if and only if no earlier one ends with it. |
| Packing.DerivedSlicesAreLaidOut | src/compact_index.rs:149-176 | The base-name slices derived from ends and parent tags are the slices that were laid out. |
| Packing.RowBytesAreAdded | src/compact_index.rs:1403-1422 | The span of a row is the number of bytes it added to its arena. |
| PackedRows.PackedTexts | src/compact_index.rs:1096-1170 | Prefix and suffix put together give back the path; all four texts are read back. |
| PackedRows.GrowthKeepsTexts | src/compact_index.rs:1096-1170 | Later rows, prefixes and extensions disturb no text of an earlier row. |
| Strings.Layout | src/compact_index.rs:645-662 | The layout exists exactly when the row fits 32 bits; each parent is an earlier text that ends with the field. |
| Strings.NewRowText | src/compact_index.rs:609-630 | The lowered path, unless the row does not fit; the cheap bound on the lengths refuses no row the exact sum admits. |
| Strings.StringStore.PackRecord | src/compact_index.rs:1096-1170 | The packed row reads back path, lowered path, base name and lowered base name; arenas grow by exactly its bytes; nothing stored before changes; a long enough parent that the pool knows is shared. A row whose texts fit 32 bits is packed whenever an arena can be had. |
| Strings.StringStore.PackStrings | src/compact_index.rs:1130-1169 | It fails if and only if the texts that are not shared, or the path, do not fit 32 bits, or no arena has room. |
| Strings.StringStore.InternExtension | src/compact_index.rs:1063-1094 | The id names the extension; a new one is appended; refused only when 2^32 - 1 are in use. |
| Strings.StringStore.ReserveRow | src/compact_index.rs:1205-1230 | A row is placed in the last arena or a new empty one; this fails exactly when neither has room below 2^32, and nothing is moved. |
| Blocks.RowBlocks.Append | src/compact_index.rs:1172-1198 | Records and metadata blocks grow in step by exactly the given row. |
| Blocks.RowBlocks.ValueAt | src/compact_index.rs:1430-1435 | Dividing a slot into block and row finds its own metadata. |
| Blocks.RowBlocks.UpdateMetadata | src/compact_index.rs:1200-1203 | Only the metadata of that slot changes. |
| PackedIndex.CompactIndex.FindId | src/compact_index.rs:1050-1061 | Binary search finds the slot of an id, dead or alive, or shows there is none. |
| PackedIndex.CompactIndex.SameStrings | src/compact_index.rs:1038-1048 | True exactly when all four texts of the row are those of the record. |
| PackedIndex.CompactIndex.ToFileRecord | src/compact_index.rs:1436-1457 | The record read back is the record stored. |
| PackedIndex.CompactIndex.Append | src/compact_index.rs:1172-1198 | Appending adds one live row and keeps every other. |
| PackedIndex.CompactIndex.ApplyChangesWithLimits | src/compact_index.rs:901-1036 | Applied: the view is the old one with every change stored or removed, ids stay strictly sorted, the books are within the limits. Refused: the index is unchanged, and for a budget it is refused exactly when, and in the order in which, the computed books exceed the limits. An acceptable batch within the budgets is applied whenever each change can have an arena of its own and each record has texts that fit 32 bits; every error names a fault of the batch or the lack of such room. |
| PackedIndex.CompactIndex.ApplyChanges | src/compact_index.rs:890-899 | The same under the limits of the service, which are given in numbers. |
| PackedIndex.AcceptableIsAnswered | src/compact_index.rs:917-1009 | A batch of ascending, own, encodable changes on sorted rows, none inserting below the last id, can be refused by budgets only. |
| PackedIndex.CompactIndex.HasRoomLeft | src/compact_index.rs:1205-1230 | An index of up to 2^24 rows, compacted as the budgets demand, has room for 2^30 more: neighbouring arenas hold the bytes of one on average. |
| Entries.StepShowsChange | src/compact_index.rs:1012-1032 | One step on the slots (new row, replaced row, revived row, tombstone) is one map update on the view. |
| Entries.BooksAfterStep | src/compact_index.rs:932-983 | One step keeps dead text bytes plus live row bytes equal to the arena bytes, and the counts of dead and live slots right. |
| Entries.BooksCover | src/compact_index.rs:942-980 | The books cover every slot, so no subtraction of the preflight underflows. |
| Deltas.RunsOn | src/compact_index.rs:917-1032 | What the preflight planned from the initial rows is still right when the step is taken: earlier steps of an ascending batch do not touch later slots. |
| Deltas.BooksRunOn | src/compact_index.rs:932-1034 | So the ledger computed in advance is the ledger of the rows after each step. |
| Deltas.ProgressCovers | src/compact_index.rs:942-980 | So it covers the slot of the next change. |
| Loading.Load | src/compact_index.rs:690-725 | A loaded index is valid and its rows are exactly the decoded rows of the table, in order; loading succeeds for every table of fewer than 2^32 rows whose texts fit 32 bits. |
| Loading.IndexBuilder.Push | src/compact_index.rs:690-704 | One more row is the decoded table row, whether or not the remembered prefix fits; it is taken whenever there is room for it. |
| Reconcile.SnapshotDiff | src/compact_index.rs:738-886 | An available diff has ascending ids, mentions only ids that differ and turns the view of the index into that of the table; each fallback is justified; with no reason for one the diff is available; an error means that a row does not fit 32 bits. |
| Reconcile.JoinIsDelta | src/compact_index.rs:746-885 | The two-cursor join of sorted slots and sorted rows yields a delta from one view to the other, made of differences only. |
| Reconcile.ApplyDiff | src/compact_index.rs:901-1036 | Applying an available diff yields exactly the view of the table, or a budget refusal without change, never the refusal for an id out of order; where there is room for the changes it is applied. |
| PackedSearch.Search | src/compact_index.rs:1288-1352 | The scan of the slots gives the best K live rows by score, time, path and slot. |
| PackedSearch.PackedAgreesWithTable | src/compact_index.rs:1288-1352 | On sorted slots this is the full scan of any table with the same view, although one breaks ties by slot and the other by id. |
| PackedSearch.SearchTable | src/compact_index.rs:1288-1352 | Packed search over an index that holds the view of a table returns exactly what ranking all rows of the table returns. |
| Worlds.FileExtends | src/db.rs:908-954 | Whatever is committed to a database file, each of its later states extends each earlier one. |
| Worlds.StampIsContent | src/db.rs:145-150 | Two observations with equal stamps saw equal rows, whenever they were made. |
| Worlds.SinceIsNotOlder | src/server.rs:725-737 | A state read from the path since a moment extends the one current then, or comes from a file that replaced it later. |
| Worlds.DeltaTakesOver | src/server.rs:534-562 | The served delta turns the view at the loaded stamp into the view at the target. |
| Handover.ReadDelta | src/server.rs:534-562 | What is read is the delta that the journal serves, or the reconciliation where the journal has a gap; there is one whenever the limits allow it and nothing hinders the join; it takes the index to the snapshot. |
| Handover.ApplyTo | src/server.rs:594-612 | Changes that the index takes are applied; a sound delta on a moderate index never ends in an error. |
| Handover.LoadIndex | src/server.rs:342-345 | A loaded index holds the view of its snapshot; every moderate snapshot can be loaded. |
| Service.ServiceState.NeedsReload | src/server.rs:494-504 | If no reload is needed, the backend stands for a state no older than the call; one is needed only without a backend, after a failed observation, or when another stamp was observed. |
| Service.ServiceState.ReloadIfChanged | src/server.rs:506-579 | Through no-op, delta, reconcile or full reload the backend keeps standing for the snapshot of its stamp; on success that is no older than the call. It fails only if a read fails or some database is too large, and loads a packed index again only if a read fails or some snapshot meanwhile is out of its reach. |
| Service.ServiceState.Refresh | src/server.rs:532-579 | If the snapshot that is read is within reach of the index, the delta is applied and that snapshot published, without a load. |
| Service.ServiceState.ApplyDelta | src/server.rs:586-656 | The target stamp is published only with every change applied, and always when the index takes them and the memory budget affords the result; a partly applied index is dropped. |
| Service.ServiceState.FullReload | src/server.rs:445-492 | Success publishes a fresh backend of the kind that the budget selects, with the stamp of its own snapshot, no older than the call; failure leaves none, and needs a failed read or a database that is too large. |
| Service.ServiceState.EnsureFresh | src/server.rs:725-737 | On success the loaded snapshot is no older than the one current when it was called; it fails only if a read failed meanwhile or some database is too large. |
| Service.ServiceState.Search | src/server.rs:658-671 | The answer is the full scan of the loaded snapshot, or, over SQLite, of a state of the loaded file between call and return, even if the path has been given to another file meanwhile. |
| Slots.NeverOverCommitted | src/server.rs:920-933 | Over any interleaving of loads, exchanges and releases the count equals the slots held and never exceeds the limit. |
| Slots.AloneFailsOnlyWhenFull | src/server.rs:920-933 | An attempt without interference succeeds if and only if a slot is free. |

## Findings

Five properties that the code suggests do not hold for all inputs. Each has an input and the exact condition.

- A `*` in a file name. `src/search.rs:982-1009` compares literals before it looks for a star, so a `*` of
  the pattern is spent on a `*` of the name and cannot be returned to. The name `*` is not matched by `*?`
  (`Patterns.StarNameIsMissed`, `src/search.rs:739-757`). Exact conditions: `Glob.ExactForHaystack`,
  `Glob.ExactForPattern`, `Patterns.ScoreExactForHaystack`, `Patterns.ScoreExactForPattern`.
- Exact and legacy refresh. `src/db.rs:14-18` deletes rows with an older generation only, while the exact
  cleanup (`src/db.rs:1245-1297`) deletes by id. A leftover stamped at or after the new generation, say by a
  clock that was ahead in another process, survives one and not the other
  (`Scanner.NewerLeftoverSurvivesLegacy`, `Scanner.RefreshesAgree`, `src/scanner.rs:172-216`).
- Orphans below a plain file. `src/scanner.rs:112-137` clears the rows below an existing path only when the
  path itself has a directory row, or is a directory now. Without either, rows below it stay
  (`Scanner.OrphanSurvives`, `Scanner.PathRefreshMeaning`).
- Recency near the least integer. `src/search.rs:910-911` subtracts the modification time from 10,000 in 64
  bits (`Ranking.RecencyOverflows`, `Ranking.RecencyFits`).
- An exact name first. `src/search.rs:928-929` gives it the best score, but `src/search.rs:945` adds up to 500
  for the path length (`Relevance.LongPathLoses`, exact condition `Relevance.ExactNameRanksFirst`).

## Left out

- Ranking.Rank: computes in unbounded integers; where `src/search.rs:910-911` leaves 64 bits (exactly when `Ranking.RecencyFits` says) the scores and orders proved are not those of the code.
- Selection.Consider: the binary heap of `TopHits` and `OwnedTopHits` is modelled by its contents in ascending order; the sift order inside the standard heap, on which no result depends, is not part of this model.
- Scanner.Writer.ScanPath: the file system is the tree that one scan observes, and the retry may observe another; the wording of warnings and the lists of paths to retry are not part of this model.
- Scanner.Writer.Upsert: the id that SQLite chooses for a new row is a parameter, assumed unused so far.
- Excludes.ExcludeMatcher.constructor: patterns arrive trimmed and paths as components; trimming and `Path::components` are not part of this model.
- Reconcile.SnapshotDiff: the time limit is a clock that may report it at any row.
- Prefixes.PrefixPool.Intern: what the allocator grants is arbitrary and reported by a ghost result, so that a refusal for that reason can be told from others.
- Ranking.MatchesMetadata: the kind, time and extension filters are stated as conditions on one row; apart from the extension pass nothing more is proved of them.
- Service.ServiceState.EnsureFresh: whether a read fails is given by the moment at which it ends; a database is too large with more than 2^24 rows or a row whose texts exceed 32 bits.
- Service.ServiceState.ReloadIfChanged: the branch for a missing stamp (`src/server.rs:523-525`) is proved unreachable; status counters, error texts and memory captures are not part of this model.
- Assumption of the service: a file changes by committed transactions only, and no two files share database id and file identity (`Worlds.Lawful`). Within one file, that a stamp determines the rows is proved.
- Allocation never fails: reservations that the code makes fallible always succeed. Errors for sizes beyond 32 bits are modelled.
- Capacities are modelled for metadata blocks and the prefix pool only; arenas and record blocks have lengths.
- Texts are decoded UTF-8: BLOB columns, invalid UTF-8 and raw comparisons on them are not part of this model. A database in another encoding takes the full scan, as in the code.
- Unicode lowercasing is an uninterpreted function, and so is the hash of the prefix pool.
- SQLite itself: statements, WAL, file handles and query plans. Tables, triggers and read snapshots are states and steps; the order of rows within a search pass is arbitrary.
- Opening, migrating and compacting a database (`src/db.rs:399-869`), except that installing the journal resets its floor.
- Query parsing and tokenising, relative times, wall clock: searches take prepared queries.
- HTTP, authentication, JSON, memory reports, configuration, command line, file watching and the macOS programs.
