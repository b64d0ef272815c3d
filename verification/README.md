# paper_assistant, verified

A Dafny model of the parts of paper_assistant that carry the most logic, with proofs of what they promise.

- **Body diff** (`Text`, `ParagraphCuts`, `ParagraphTokens`, `Typesetting`, `Segments`, `WordDiffs`, `Accounting`, `Placeholders`,
  `MediaSplice`, `MediaDiffs`, `MovedParagraphs`, `MoveLaws`, `PlaceholderMerge`, `MergeTheorems`, `ParagraphDiffs`, `AlignmentLaws`,
  `ParagraphFacts`, `ExactReading`, `ShortBodies`, `Figures`). Two versions of a paper become one list of equal, delete, insert and moved segments: paragraphs are aligned, changed ones
  are diffed by words, figure and table stand-ins are put back at their word positions, moved paragraphs are paired in up to five
  passes, and the stand-ins of one figure are merged under a renumbering. The requirement behind every stage is that reading the new
  version off the list gives the new text, in order and in place. `difflib` is any alignment that tiles both inputs with truly equal
  blocks, and any similarity in [0, 1]; every theorem holds for all of them. The caps on segments are parameters.
- **Matching figures, tables, boxes** (`GreedyMatching`, `Sorting`, `MediaMatching`, `MatchingLaws`) and **the change lists** (`Revisions`,
  `BodyAttachment`, `AttachmentLaws`): replaying partial edits into versions, and inserting each PDF exchange's diff into the lists in
  place.
- **Resubmissions** (`Linker`, `Journey`, `JourneyWalk`): links between papers by priority, the walk over the link table, and Kahn's
  algorithm with a priority key that survives cycles.
- **Exact statistics** (`Combinatorics`, `Statistics`): binomial and Fisher tails over the reals.
- **Page blocks** (`BlockMerge`): merging overlapping text blocks until nothing changes.
- **Search ranking** (`HybridSearch`): rank fusion, the weighted rerank and the folding of duplicates.
- **Analysis jobs** (`AnalysisJobs`): requests, expiry, background runs, deletions and crashes as interleaved atomic database steps.

Where the code promises less than its comments, the code is followed. `paper_assistant/query/revisions.py:363-372` says the new version
can be rebuilt word for word from a word diff. Of one plain word diff that holds exactly when the cap cuts none of its new words; the
break marker is harmless there. Of a whole body diff it holds exactly when no cap cuts a new word and no new paragraph that is diffed
against a similar old one holds the marker (`ExactReading.ReadsExactlyUnlessCut`); a marked paragraph that is not part of such a pair is
read back. A caller can check before the call: without the marker, and with no more words in both bodies than either cap, the reading is
exact (`ShortBodies`); after a blank body it is exact just when the paragraphs are no more than the final cap; and there is a marked pair
that fails for every cap (`ExactReading`). `paper_assistant/query/revisions.py:243-246` moves the source of a file to any edit that
carries one, also unchanged, so the links of successive file reports can differ for one file (`Revisions.FileReportsChain`). The sample
pools listed at `paper_assistant/retrieval/hybrid_search.py:67-71`, between which the newest paper stops winning, are sharpened to the
exact rank for each preset (`HybridSearch.ReachIsExact`).

Expiry at `app/services/analysis.py:91-99` reads a row and writes it later, so a run that finishes in between is shown as failed with
its report stored (`AnalysisJobs.FinishMeetsExpiry`).

Floating-point numbers are real numbers here. A power `0.5 ** (age / half_life)` is any function with the defining property that its
`half_life`-th power is `0.5 ** age`.

## Model

| member | source | states |
|---|---|---|
| `Text.WordsAppend` | paper_assistant/query/revisions.py:128 | `str.split()` of a concatenation is the concatenation of the splits wherever the cut does not fuse two words |
| `Text.SplitOfJoin` | paper_assistant/query/revisions.py:133-138 | `" ".join(ws).split()` gives back any list of words, so a segment's text stands for exactly its words |
| `Text.ParagraphsKeepWords` | paper_assistant/query/revisions.py:346-351 | cutting a body at blank lines and trimming the paragraphs loses, adds and reorders no word |
| `ParagraphCuts.OneParagraph` | paper_assistant/query/revisions.py:346-351 | a body without a blank line is one trimmed paragraph, or none if it is blank: a lone newline does not split |
| `ParagraphCuts.CutIffParagraphs` | paper_assistant/query/revisions.py:346-351 | joined by blank lines and cut again, a list of texts comes back if and only if each is trimmed, not empty and without a blank line of its own, as every paragraph of a body is |
| `ParagraphTokens.TokenizeDetokenize` | paper_assistant/query/revisions.py:154-162 | round trip: tokenizing a detokenized list gives back the same list, for any words free of the break marker and any runs of breaks, also at either end, through all four replacement patterns |
| `ParagraphTokens.WordsOfDetokenize` | paper_assistant/query/revisions.py:158-162 | the words of a detokenized list are its tokens without the breaks |
| `ParagraphTokens.TokenizeKeepsWords` | paper_assistant/query/revisions.py:154-155 | tokenizing a marker-free text gives its words in order with breaks between them, and nothing else |
| `Typesetting.DetokenizeTypesets` | paper_assistant/query/revisions.py:158-162 | the four replacements together set words one space apart and every break as a blank line without spaces around it |
| `WordDiffs.WordDiff` | paper_assistant/query/revisions.py:126-139 | the opcode loop yields the segments of the alignment `difflib` chose, cut at the cap: its equal words are the tokens the alignment tags as the same, its deleted words the other old ones and its inserted words the other new ones, each in order and at most a prefix once cut; also the paragraph-keeping variant at 165-183 |
| `WordDiffs.DiffParts` | paper_assistant/query/revisions.py:131-138 | of the uncut diff, in either mode: exactly those words under each operation, nothing moved, and nothing but equal text when the alignment keeps everything |
| `WordDiffs.OpcodeShown` | paper_assistant/query/revisions.py:131-138 | each opcode is shown at its own place, as one equal segment, or as what is deleted before what is inserted, with the text its tokens spell |
| `WordDiffs.FullDiffReads` | paper_assistant/query/revisions.py:126-183 | for every valid alignment, equal+insert segments read back the new text's words and equal+delete the old text's |
| `WordDiffs.CappedDiffExact` | paper_assistant/query/revisions.py:139 | a capped diff reads a prefix of each text, and the whole of it if and only if the cut dropped none of its words |
| `Accounting.KeptExactly` | paper_assistant/query/revisions.py:165-183 | one word diff reads back either of its texts if and only if that text is free of the break marker (paragraph mode) and the cap drops none of its words |
| `Accounting.AllKeptExactly` | paper_assistant/query/revisions.py:501-579 | over all the word diffs made for one body diff, on either side, two additive weights (words, marked words) vanish together exactly when each diff kept its text of that side: one diff's loss cannot hide another's |
| `MediaSplice.SplitParts` | paper_assistant/query/revisions.py:374-384 | the text paragraphs and the stand-ins are separated so that each stand-in is keyed by the number of words before it, in order |
| `MediaDiffs.WordDiffAhead` | paper_assistant/query/revisions.py:415-426 | no segment of a word diff is blank, so the branch for empty segments is never taken, and its words are the next words of each text |
| `MediaDiffs.FinishBalance` | paper_assistant/query/revisions.py:456-461 | after the last segment the stand-ins not yet written complete the list, and there are none when the diff was not cut: the defensive tail is idle without a cut |
| `MediaDiffs.CloseBlankLines` | paper_assistant/query/revisions.py:465-471 | a text before a stand-in, and the last one, is closed by a blank line, no other text is touched, and no operation or word changes |
| `MediaDiffs.DiffReplaceWithMedia` | paper_assistant/query/revisions.py:354-472 | for both versions: every stand-in comes out exactly once and in its original order even when the word diff is cut; without a cut each sits after exactly its original number of words and before anything the other version adds there, old stand-ins before new ones where both meet; the text keeps the word diff's operations, shown as moved when no word changed |
| `MediaDiffs.SplicedReads` | paper_assistant/query/revisions.py:359-373 | a spliced stretch whose word diff kept its text reads back each version's paragraphs, stand-ins in place |
| `MediaDiffs.SplicedWeighs` | paper_assistant/query/revisions.py:354-472 | cut or not, what the stretch shows of either version falls short by exactly what its word diff lost of it |
| `GreedyMatching.GreedyOneToOne` | paper_assistant/query/revisions.py:641-657 | the greedy pass never uses an end twice |
| `GreedyMatching.GreedyStable` | paper_assistant/query/revisions.py:641-657 | every candidate left out shares an end with a chosen pair at least as similar: the matching is maximal and stable |
| `GreedyMatching.GreedyHalf` | paper_assistant/query/revisions.py:641-657 | the chosen total similarity is at least half that of any one-to-one choice from the same candidates |
| `Sorting.SortStable` | paper_assistant/query/revisions.py:637 | the sort before every greedy pass is stable: of two candidates that tie the one listed first stays first |
| `MoveLaws.QualifiesIsLikely` | paper_assistant/query/revisions.py:586-636 | the candidates are exactly the pairs of a deletion and an insertion of six words or more each, no stand-ins, whose trimmed texts agree to 0.6 |
| `MoveLaws.LikelyIsCovered` | paper_assistant/query/revisions.py:639-657 | of every such pair that is not confirmed, one end went to a pair at least as similar |
| `MoveLaws.EarlierWinsTies` | paper_assistant/query/revisions.py:624-637 | of equally similar pairs that share an end the one with the earlier deletion, then the earlier insertion, is confirmed |
| `MoveLaws.PairShown` | paper_assistant/query/revisions.py:643-664 | a confirmed pair is shown where the insertion stood: as one moved segment when the two trimmed texts are the same, and otherwise as their word diff, closed by a blank line |
| `MoveLaws.OnlySameTextMoves` | paper_assistant/query/revisions.py:643-664 | a pass marks as moved nothing but such insertions of unchanged text |
| `MoveLaws.MovedIffAllEqual` | paper_assistant/query/revisions.py:402-407 | the text of a stretch with stand-ins is shown as moved if and only if its word diff, as cut, is all equal |
| `MoveLaws.UnchangedTextMoves` | paper_assistant/query/revisions.py:402-407 | the text of a stretch with stand-ins is shown as moved when the alignment keeps all its words, and not otherwise unless the diff is cut |
| `MovedParagraphs.MovePairsGood` | paper_assistant/query/revisions.py:624-657 | the candidates of a move pass are exactly the long enough delete/insert pairs at or above the threshold, and the pairs chosen are one-to-one, maximal and within a factor of two |
| `MovedParagraphs.MatchMoved` | paper_assistant/query/revisions.py:592-664 | the pass rewrites the list as specified: matched deletions vanish, matched insertions are replaced in place, all else is copied |
| `MovedParagraphs.MovesKeep` | paper_assistant/query/revisions.py:614-664 | a pass keeps the reading of the new version, in order, and the words of the old one, up to exactly what its own word diffs lose of them |
| `Placeholders.StandInForm` | paper_assistant/pdf/extract.py:83 | a stand-in is exactly a bracket, one of the four label words, space or none, decimal digits or none, a bracket; or the same with the word for boxes and a hexadecimal name that is not empty |
| `PlaceholderMerge.LabelShown` | paper_assistant/query/revisions.py:667-673 | a label of each of the five kinds has its own placeholder, and with a number that is one it is a stand-in |
| `PlaceholderMerge.OnlyLabelsShown` | paper_assistant/query/revisions.py:667-673 | and nothing else has a placeholder |
| `PlaceholderMerge.PlaceholderInjective` | paper_assistant/query/revisions.py:670-673 | different labels never share a placeholder, so no entry of the renumbering hides another |
| `PlaceholderMerge.PlaceholderMapInjective` | paper_assistant/query/revisions.py:724-728 | a one-to-one renumbering of labels stays one-to-one on placeholders |
| `PlaceholderMerge.InsertPositions` | paper_assistant/query/revisions.py:752-757 | every labelled insertion is listed under its label, in rising order |
| `PlaceholderMerge.MergePlaceholders` | paper_assistant/query/revisions.py:676-779 | deletions are served renumbered ones first, then in list order; each takes the first free insertion of its target or finds all of them taken before its turn; claiming deletions are dropped and claimed insertions shown as moved |
| `MergeTheorems.FirstComeFirstServed` | paper_assistant/query/revisions.py:759-779 | of two deletions that look for the same stand-in the one served sooner takes the earlier insertion, and if it finds none, neither does the other |
| `MergeTheorems.MergeKeepsNew` | paper_assistant/query/revisions.py:697-703 | merging leaves the new version's texts, their order and their places untouched |
| `MergeTheorems.MergeKeepsOldWords` | paper_assistant/query/revisions.py:676-779 | the old version keeps its words, except that a claiming stand-in's words become those of the stand-in it was renumbered to |
| `MergeTheorems.RenumberedFigureMoves` | paper_assistant/query/revisions.py:689-722 | of a list in which no stand-in is moved yet and each version shows each label at most once: under a one-to-one renumbering, chains and rotations included, a renumbered figure shown on both sides ends as one moved stand-in at its new place, and its old number is not left deleted |
| `MergeTheorems.DeletedFigureStays` | paper_assistant/query/revisions.py:705-722 | of such a list: a figure without a new number is shown deleted if and only if the new version does not show its number or a renumbered figure of the old version takes it; otherwise its stand-in goes to that number |
| `MergeTheorems.KeptStandInStays` | paper_assistant/query/revisions.py:742-749 | of such a list: a stand-in shown unchanged, whose label is neither renumbered nor the new number of another, stays unchanged, and is nowhere moved, deleted or inserted |
| `MergeTheorems.SplitStandInMoves` | paper_assistant/query/revisions.py:759-779 | of such a list: such a stand-in shown deleted and inserted becomes one moved stand-in and nothing else |
| `ParagraphDiffs.AlignParagraphs` | paper_assistant/query/revisions.py:497-556 | each opcode becomes a block of the kind its branch prescribes; straight after alignment each version reads back exactly whenever every word diff kept its text of that version |
| `AlignmentLaws.AlignmentSays` | paper_assistant/query/revisions.py:497-556 | the list is one block per opcode, in order: kept, deleted and inserted paragraphs whole, one segment each; of a replaced stretch without stand-ins a single paragraph is diffed against a single successor if they agree to 0.6, and otherwise all of the old is deleted and all of the new inserted |
| `ParagraphDiffs.MovePasses` | paper_assistant/query/revisions.py:573-577 | at most five passes, stopping when nothing changes; together they keep the new reading and the old words, up to what the word diffs they made lose |
| `AlignmentLaws.FivePasses` | paper_assistant/query/revisions.py:573-577 | what reaches the merge is the alignment after five passes, or after fewer if a further one would change nothing, and every pass before changed something |
| `ParagraphDiffs.BodyDiffExact` | paper_assistant/query/revisions.py:475-579 | the non-deleted segments read exactly `after.split()` if and only if every word diff kept its new text and the final cap dropped no new word; the old words are all there, claiming labels renumbered, if and only if the same holds of the old side |
| `ParagraphDiffs.ParagraphDiff` | paper_assistant/query/revisions.py:475-579 | the whole chain: block shapes, passes, merge and cap; similarity in [0, 1]; either body is read back after alignment if and only if its word diffs kept it; the result reads exactly as the new body if and only if every word diff kept its new text and the cap cut no new word; and it keeps the old body's words, up to renumbered labels, if and only if every word diff kept its old text and the cap cut no old word |
| `ExactReading.ReadsExactlyUnlessCut` | paper_assistant/query/revisions.py:475-579 | the reading is exact if and only if no new paragraph that the alignment diffs against a similar one holds the break marker, which shows from the bodies and the alignment, and no cap cuts one of the new words; a body free of the marker meets the first by itself |
| `ExactReading.OldWordsUnlessCut` | paper_assistant/query/revisions.py:475-579 | the result holds all words of the old body, up to renumbered labels, if and only if no old paragraph so diffed holds the marker and no cap cuts one of the old words |
| `ExactReading.AlignedReadsUnlessCut` | paper_assistant/query/revisions.py:497-556 | straight after alignment either body is read back in order under the same condition on the alignment's own word diffs |
| `ExactReading.MarkedBodyIsNotReadBack` | paper_assistant/query/revisions.py:154-183 | two similar one-word bodies, the new one with the break marker inside its word: aligned as a replacement, the new body is not read back, for all caps |
| `ExactReading.MarkedBodiesAreAlignedSo` | paper_assistant/query/revisions.py:509-521 | such an alignment exists: one replacement of everything, at a similarity of 7/8 |
| `ExactReading.NewBodyReadsExactly` | paper_assistant/query/revisions.py:564-579 | after a blank body, for every alignment and every cap: the new body is read back exactly if and only if it has at most as many paragraphs as the final cap |
| `ShortBodies.ShortBodiesReadExactly` | paper_assistant/query/revisions.py:475-579 | two bodies without the break marker that together have no more words than either cap: for every alignment nothing is cut, the result reads exactly as the new body, and straight after alignment the old body is read back too |
| `Figures.StandInOpens` | paper_assistant/pdf/extract.py:83 | a stand-in starts with a word that opens like one, so text without such words is never taken for a stand-in |
| `Figures.AlignedShows` | paper_assistant/query/revisions.py:497-556 | of bodies whose text has no such word and no break marker: after alignment, cut or not, each version shows exactly its own stand-ins in order, and nothing else that looks like one |
| `Figures.FiguresReachMerge` | paper_assistant/query/revisions.py:573-578 | and so it stays through the move passes: what reaches the merge shows each stand-in once per version, none of them moved |
| `Figures.RenumberedFigureArrives` | paper_assistant/query/revisions.py:475-579 | from the two bodies to the result: the stand-ins of the new version are shown once each and in their own order, a renumbered figure that both bodies show is the moved one there, never inserted or unchanged, and its old number is not shown deleted |
| `Figures.DeletedFigureRemains` | paper_assistant/query/revisions.py:705-722 | from the two bodies to the result: a figure without a new number is shown deleted if and only if the new body does not show its number or a renumbered figure takes it |
| `Figures.SameNumberShown` | paper_assistant/query/revisions.py:738-779 | from the two bodies to the merged list: a figure that both show under a number no renumbering touches is shown unchanged if and only if the alignment keeps its paragraph, and moved if not; never deleted or inserted |
| `Figures.BlockMovesFigure` | paper_assistant/query/revisions.py:1171-1245 | the same of the block attached for a PDF exchange, under the renumbering collected for it |
| `Figures.BlockKeepsFigure` | paper_assistant/query/revisions.py:1171-1245 | and of the attached block: a figure that keeps its number, and whose number no other figure takes, is unchanged or moved in the same way |
| `MediaMatching.MatchBoxes` | paper_assistant/query/revisions.py:972-1009 | boxes are paired best first down to the threshold: one-to-one, maximal among qualifying pairs, within a factor of two of any one-to-one choice |
| `MatchingLaws.FirstBoxesWin` | paper_assistant/query/revisions.py:987-1009 | two boxes alike enough are paired when every other pair with one of them is less alike, or as alike and later in the order of the old boxes, then of the new ones |
| `MediaMatching.BoxSimilarityRange` | paper_assistant/query/revisions.py:991-996 | box similarity lies in [0, 1], also when picture sizes stand in for text |
| `MediaMatching.RematchMediaLabels` | paper_assistant/query/revisions.py:1062-1088 | figures, tables and algorithms: the greedy phase is one-to-one, maximal and within a factor of two over the pairs at their own thresholds; then same labels are kept where free |
| `MediaMatching.RematchUnique` | paper_assistant/query/revisions.py:1068-1082 | the result does not depend on the order in which the label sets are walked |
| `MediaMatching.RematchOneToOne` | paper_assistant/query/revisions.py:1084-1088 | with the fallback the map is still one-to-one, and no label present on both sides is left unused on both |
| `MediaMatching.SameLabelWinsTies` | paper_assistant/query/revisions.py:1074-1088 | a label on both sides that qualifies with itself keeps its number unless one of the two is strictly more similar to another |
| `MatchingLaws.PreferredWins` | paper_assistant/query/revisions.py:1064-1082 | a pair that qualifies is taken when it is preferred to every other that shares a label with it: more similar; or as similar, and with its own number where the other has not; or else first by the old label, then by the new one |
| `MediaMatching.RenumberingInjective` | paper_assistant/query/revisions.py:1219-1220 | the renumbering handed to the body diff, collected over five kinds, is one-to-one and never crosses kinds |
| `MediaMatching.RenumberingIs` | paper_assistant/query/revisions.py:1219-1220 | a label is renumbered if and only if the matching of some kind takes it to a different label, and then to that one |
| `BodyAttachment.MatchMedia` | paper_assistant/query/revisions.py:1197-1218 | per kind the matching is the one prescribed (rematched, paired by content, or by number), one-to-one and within the kind |
| `AttachmentLaws.PicturesMatched` | paper_assistant/query/revisions.py:1020-1088 | a figure, table or algorithm is paired with another number only if captions of eight characters or more agree to 0.7, or without such captions the pictures to 0.95; one that resembles nothing keeps its number |
| `AttachmentLaws.OwnNumberFirst` | paper_assistant/query/revisions.py:1074-1082 | one that resembles its own number at least as much as anything else keeps it |
| `AttachmentLaws.PicturesCovered` | paper_assistant/query/revisions.py:1064-1082 | of two that resemble each other and are not paired, one went to another it resembles at least as much, by captions or by pictures |
| `AttachmentLaws.BoxesMatched` | paper_assistant/query/revisions.py:970-1009 | a box with the same name on both sides is itself; others are paired only if their texts agree to 0.5, or, without text, if neither picture is over twice the size of the other |
| `AttachmentLaws.BoxesCovered` | paper_assistant/query/revisions.py:987-1009 | of two boxes alike enough, each known to one side only, that are not paired, one went to a box at least as much alike, by text, or by the smaller picture's share of the larger |
| `AttachmentLaws.EquationsMatched` | paper_assistant/query/revisions.py:1206-1213 | an equation is matched if and only if both sides have its number, and then with itself |
| `AttachmentLaws.NumberOfLabel` | paper_assistant/query/revisions.py:955-960 | labels are listed by the first number in them, read as decimal |
| `BodyAttachment.MediaItems` | paper_assistant/query/revisions.py:1226-1245 | matched, removed and added items together show every before-picture and every after-picture exactly once, each with its own image and partner, and name a new label exactly when it differs; they stand by kind, then matched, gone and new, then by number |
| `BodyAttachment.BuildBlock` | paper_assistant/query/revisions.py:1171-1245 | the block of one exchange: the body diff under a one-to-one renumbering, then every picture of either version exactly once over all five kinds |
| `BodyAttachment.AttachEntry` | paper_assistant/query/revisions.py:1155-1251 | index arithmetic of the in-place inserts: the list becomes each change followed at once by its own block; the first version's text goes to the baseline entry at most once |
| `BodyAttachment.AttachBodyDiffs` | paper_assistant/query/revisions.py:1091-1251 | over all entries: lists interleaved with blocks exactly for exchanges whose versions both have text, plus the first before-text found appended to the baseline entry |
| `AttachmentLaws.BlockCompares` | paper_assistant/query/revisions.py:1155-1166 | the block of a replaced PDF compares what is fetched under its before-link with what is fetched under its after-link, and there is none if either has no text |
| `AttachmentLaws.OnlyExchangesCompared` | paper_assistant/query/revisions.py:1157-1159 | no other change gets a block |
| `AttachmentLaws.FirstOfAllIs` | paper_assistant/query/revisions.py:1155-1165 | the baseline body is the first before-text in the order of the entries and their changes |
| `BodyAttachment.AttachedOriginals` | paper_assistant/query/revisions.py:1247-1251 | taking the attached changes and the baseline body out again gives back each entry's own list, in order |
| `BodyAttachment.BlockFollows` | paper_assistant/query/revisions.py:1247-1251 | each block starts right after its own change, wherever earlier blocks pushed it |
| `BodyAttachment.BaselineReads` | paper_assistant/query/revisions.py:1138-1183 | the baseline body reads as the first version's text on either side |
| `Revisions.BuildRevisions` | paper_assistant/query/revisions.py:227-259 | one entry per edit, the first a baseline without changes, every other with exactly the differences between the versions before and after it |
| `Revisions.LastWriterWins` | paper_assistant/query/revisions.py:238-246 | after any prefix of the edits a tracked field holds what the last edit to mention it gave it, deletions included, and is known if and only if some edit mentioned it |
| `Revisions.LinkNamesCarrier` | paper_assistant/query/revisions.py:243-246 | whenever a file is in force its link names the edit that carried it, across deletions and re-uploads |
| `Revisions.ReportedExactly` | paper_assistant/query/revisions.py:193-224 | a field is reported if and only if it was known and differs, at most once per edit, and as the kind of change its branch prescribes |
| `Revisions.ReportIsTransition` | paper_assistant/query/revisions.py:200-224 | what a report says is the value, or file link, in force before and after its edit |
| `Revisions.ReportsChain` | paper_assistant/query/revisions.py:227-259 | successive reports of a text or value field chain: the new value of one is the old value of the next |
| `Revisions.FileReportsChain` | paper_assistant/query/revisions.py:238-259 | successive reports of a file field name the same file, but by the same link if and only if there is no file or no edit in between carried it again |
| `Revisions.RestatedFileBreaksChain` | paper_assistant/query/revisions.py:243-246 | four edits that bring a file, a second one, the second again and a third: the third edit reports nothing, the report before it ends in a link to the second edit, the report after it starts from a link to the third |
| `Revisions.ReportsReplay` | paper_assistant/query/revisions.py:227-259 | starting from the first version and following the reports gives every later version of a text or value field |
| `Revisions.TextReportReads` | paper_assistant/query/revisions.py:216-220 | a reported text change reads prefixes of both values, and each value exactly if and only if the cap drops none of its words |
| `Revisions.TextReportParts` | paper_assistant/query/revisions.py:216-220 | its similarity is that of the two values, and it shows what the alignment of their words keeps, removes and adds, in at most 400 segments, nothing as moved |
| `Revisions.ReportSays` | paper_assistant/query/revisions.py:186-224 | which kind of report it is and which verb a file gets, read off the two versions: replaced, added or removed; as text only title, abstract and TLDR, and only with a value on both sides |
| `Revisions.FileReportFetches` | paper_assistant/query/revisions.py:210-215 | the links of a file report fetch the file from the edit that made the report and from the edit that last carried one before it, and are missing where there is no file |
| `Revisions.FourEditsRestate` | paper_assistant/query/revisions.py:243-246 | papers A, B, B, C set as `pdf` by four edits are such edits |
| `Journey.OrderIsPermutation` | paper_assistant/query/journey.py:75-109 | each paper comes out exactly once, cycles or not |
| `Journey.TopoIsLeast` | paper_assistant/query/journey.py:93-102 | when any order following the links exists, the result follows them and is the lexicographically least by (year, id) |
| `Journey.NeighboursClimb` | paper_assistant/query/journey.py:90-109 | of two papers next to each other in the result, the second is linked from the first or is later by year, or in the same year has the larger id; among the leftovers always the latter; a missing year counts as 0 |
| `Journey.UnlinkedByYear` | paper_assistant/query/journey.py:90-109 | without links the whole result is ascending by year and id |
| `Journey.LeftoverIsLargest` | paper_assistant/query/journey.py:104-106 | the leftovers are the largest set of papers each linked from one inside the set |
| `Journey.LeftoverIffCycle` | paper_assistant/query/journey.py:104-109 | there are leftovers if and only if the links contain a cycle |
| `Journey.AcyclicOrder` | paper_assistant/query/journey.py:75-109 | without a cycle the whole result is the least order that follows the links |
| `Journey.ClimbingHasNoCycle` | paper_assistant/query/journey.py:104-109 | links that always climb in some rank form no cycle |
| `JourneyWalk.Order` | paper_assistant/query/journey.py:75-109 | the loop over counts and a re-sorted ready list computes that order, and depends on the set of links only, not on their order or repetition |
| `JourneyWalk.CollectEdges` | paper_assistant/query/journey.py:47-72 | terminates for any link table: it goes hop by hop while the cap is not met and stops when it is or when nothing is left to find; it has then seen the papers that many links away and kept the links that touch those one hop nearer; below the cap these are a closed set and all its links |
| `JourneyWalk.SeenIsComponent` | paper_assistant/query/journey.py:50-57 | for a component smaller than the cap, what was seen is the whole component |
| `JourneyWalk.ComponentOfMember` | paper_assistant/query/journey.py:47-72 | every member of a component has the same component |
| `JourneyWalk.ComponentExists` | paper_assistant/query/journey.py:47-72 | every paper has exactly one component: the least set with it that no link leaves |
| `JourneyWalk.JourneyStops` | paper_assistant/query/journey.py:145-160 | the ordered stops are the known papers where the walk stops, by the links it met; of a component below the cap they are all its known papers, a function of the component |
| `JourneyWalk.StopsInOrder` | paper_assistant/query/journey.py:145-160 | of a component below the cap with climbing links: each known paper once, every earlier submission before the later one, and neighbours either linked or in order of year and id |
| `JourneyWalk.SameJourney` | paper_assistant/query/journey.py:47-72 | any two papers of a component below the cap are shown the same journey |
| `Linker.FindLinks` | paper_assistant/ingest/submission_linker.py:87-147 | each pair of papers has at most one link, made by the highest-priority stage that relates it, and every related pair of different submissions has one |
| `Linker.LinkReason` | paper_assistant/ingest/submission_linker.py:101-147 | why a link is there: same arXiv id at 1.0, otherwise same title at 0.95, otherwise a similar title at its rounded similarity, with authors known on both sides of whom at least half are shared; from the submission that is not the later one |
| `Linker.RelatedAreLinked` | paper_assistant/ingest/submission_linker.py:101-147 | any two different submissions related in one of these ways are linked |
| `Linker.LinkClimbs` | paper_assistant/ingest/submission_linker.py:32-54 | between venues that carry their own year every link strictly climbs in (year, half) |
| `Linker.NoLeftovers` | paper_assistant/ingest/submission_linker.py:32-54 | so the links have no cycle and the journey's order has no leftovers |
| `Statistics.BinomTailIsProbability` | paper_assistant/graph/clustering.py:41-51 | either tail sum lies in (0, 1] before clamping, so the clamp never changes it (by the binomial theorem) |
| `Statistics.TailsComplement` | paper_assistant/graph/clustering.py:41-51 | P(X >= k) + P(X <= k - 1) = 1 for 1 <= k <= n |
| `Statistics.UpperTailFalls` | paper_assistant/graph/clustering.py:41-51 | the upper tail is 1 at 0 and falls strictly with k |
| `Statistics.UpperTailSteps` | paper_assistant/graph/clustering.py:41-51 | from k to k + 1 the upper tail loses exactly comb(n, k) p^k (1-p)^(n-k); at n it is p^n and at 1 it is 1 - (1-p)^n |
| `Statistics.UpperTailGrows` | paper_assistant/graph/clustering.py:41-51 | for 1 <= k <= n the upper tail grows strictly with p |
| `Statistics.TailIsCertain` | paper_assistant/graph/clustering.py:46-51 | a tail is 1 if and only if there are no trials, p is not inside (0, 1), or every count qualifies |
| `Combinatorics.Vandermonde` | paper_assistant/graph/clustering.py:66-71 | the convolution of two rows of binomial coefficients is a binomial coefficient of the sum |
| `Statistics.FisherSumIsAll` | paper_assistant/graph/clustering.py:66-71 | over all tables with the same margins the terms sum to the denominator |
| `Statistics.FisherIsProbability` | paper_assistant/graph/clustering.py:54-72 | the p-value lies in (0, 1] before clamping, so the clamp never changes it; the guard keeps every binomial argument non-negative |
| `Statistics.FisherGrows` | paper_assistant/graph/clustering.py:54-72 | at fixed margins the p-value grows strictly with `a` |
| `Statistics.FisherSteps` | paper_assistant/graph/clustering.py:54-72 | at fixed margins the p-value starts at comb(c+d, c)/comb(n, a+c) for a = 0 and each further table adds its own probability |
| `Statistics.FisherIsOne` | paper_assistant/graph/clustering.py:65-72 | the p-value is 1 if and only if b or c is 0, so that no table with the same margins has a larger `a`; an empty margin is such a case |
| `Statistics.FisherTransposes` | paper_assistant/graph/clustering.py:54-72 | swapping rows for columns leaves the p-value unchanged |
| `Statistics.AcceptContrast` | paper_assistant/graph/clustering.py:75-94 | the four counters are the sizes of the groups of papers with and without the remark that are decided (known, not empty, not `unknown`), and accepted (starting with `accept`); each accepted count is within its decided count |
| `BlockMerge.ContainedIsMostlyContained` | paper_assistant/pdf/extract.py:222-226 | a block wholly inside another always counts as mostly contained, in either order |
| `BlockMerge.HullIsTight` | paper_assistant/pdf/extract.py:277 | a group's rectangle is the least one around its blocks |
| `BlockMerge.ContainmentIsOverlap` | paper_assistant/pdf/extract.py:243-250 | the test is that the common area, both areas being width times height, is positive and at least four fifths of the smaller one |
| `BlockMerge.GroupsAreJoined` | paper_assistant/pdf/extract.py:261-286 | and nothing else joins blocks: every group of two or more holds no caption and was joined from two parts whose rectangles share four fifths of the smaller one |
| `BlockMerge.MergePass` | paper_assistant/pdf/extract.py:261-286 | a pass keeps every block in exactly one group, grows groups only by sufficient overlap, shortens the list whenever it changed it, and otherwise proves the list settled |
| `BlockMerge.MergeBlocks` | paper_assistant/pdf/extract.py:256-287 | terminates; the sources partition the original blocks, each rectangle is the union of its sources, and no two rectangles that are not captions overlap by the ratio at exit |
| `BlockMerge.CaptionAlone` | paper_assistant/pdf/extract.py:228-235 | a caption block stays alone with its own rectangle |
| `BlockMerge.NoneInside` | paper_assistant/pdf/extract.py:243-250 | at exit the common area of two such rectangles is below 80% of the smaller one, and none lies inside another |
| `BlockMerge.SettledShareLess` | paper_assistant/pdf/extract.py:243-286 | in the terms of the test itself: no two rectangles that are not captions share four fifths of the smaller one at exit |
| `BlockMerge.AreaIsWidthTimesHeight` | paper_assistant/pdf/extract.py:248-250 | an area is width times height, and nothing if either is not positive |
| `BlockMerge.SettledPageUnchanged` | paper_assistant/pdf/extract.py:213-215 | a page whose blocks do not overlap enough comes out unchanged |
| `HybridSearch.RrfFuse` | paper_assistant/retrieval/hybrid_search.py:292-302 | each document found scores the sum of 1/(k + rank) over the retrievers that found it, and no other document scores |
| `HybridSearch.FusedAtMostMax` | paper_assistant/retrieval/hybrid_search.py:307-314 | the score never exceeds the theoretical maximum, and reaches it if and only if every retriever ranks the document first |
| `HybridSearch.Rerank` | paper_assistant/retrieval/hybrid_search.py:357-384 | every scored document gets its signals from its own score and metadata, neutral ones where metadata is missing |
| `HybridSearch.DecayInUnit` | paper_assistant/retrieval/hybrid_search.py:317-332 | the recency of any age lies in (0, 1] and is 1 for the newest year |
| `HybridSearch.FinalInUnit` | paper_assistant/retrieval/hybrid_search.py:357-384 | the similarity clamp is idle, similarity is 1 only for first place everywhere, and the final score lies in [0, 1] with every preset |
| `HybridSearch.FinalWrittenOut` | paper_assistant/retrieval/hybrid_search.py:96-191 | the final score of each preset, written out: the weights of similarity, recency and citation, the half-life, similarity as the share of the best possible score, a missing percentile as 0.5 |
| `HybridSearch.CitationAndSimilarityRaise` | paper_assistant/retrieval/hybrid_search.py:335-347 | all else equal, the final score is larger if and only if the percentile is, and if and only if the fused score is |
| `HybridSearch.BetterRanksRaise` | paper_assistant/retrieval/hybrid_search.py:292-302 | a document found wherever another is, and never ranked below it, has at least its fused score, and more if it is found more often or ranked better once |
| `HybridSearch.NewerRaises` | paper_assistant/retrieval/hybrid_search.py:317-332 | all else equal the newer paper scores higher, up to the newest year of the corpus |
| `HybridSearch.NewestWins` | paper_assistant/retrieval/hybrid_search.py:96-191 | with every preset, a newest paper found by one retriever within the preset's reach beats any paper at least five years older at equal citation, however it ranked |
| `HybridSearch.NewestWinsInPool` | paper_assistant/retrieval/hybrid_search.py:63-73 | in particular at any rank inside the candidate pool of 100 |
| `HybridSearch.ReachIsExact` | paper_assistant/retrieval/hybrid_search.py:63-73 | the reach is exact: against a five-year-old paper ranked first by both, the newest one wins if and only if its rank is within 195 (default), 173 (cited) or any (recent) |
| `HybridSearch.ScannedKeys` | paper_assistant/retrieval/hybrid_search.py:444-458 | the scan sees the first `top_k` distinct keys in order of appearance, or all of them |
| `HybridSearch.PickWithoutDuplicates` | paper_assistant/retrieval/hybrid_search.py:422-458 | one row per key, in order of first appearance, min(top_k, number of keys) of them for top_k >= 1, each the first with the most reviews among the rows scanned |
| `HybridSearch.NoPaperTwice` | paper_assistant/retrieval/hybrid_search.py:422-458 | no two picked rows have the same title and venue, and no row is picked twice |
| `HybridSearch.EveryPaperPicked` | paper_assistant/retrieval/hybrid_search.py:444-458 | below `top_k` every row has a picked one of its title and venue, with more reviews than any before it and no fewer than any after it |
| `HybridSearch.BothVenuesPicked` | paper_assistant/retrieval/hybrid_search.py:441-452 | below `top_k` rows with the same title at different venues are both picked |
| `AnalysisJobs.MoveKeeps` | app/services/analysis.py:91-323 | every atomic step of every request and run keeps the whole invariant |
| `AnalysisJobs.Safety` | app/services/analysis.py:91-323 | in every interleaving with expiry, deletion, crashes and other requests: at most one analysis in progress per submission, each row handed to `run_analysis` at most once, `done` has a stored report, and a row's progress is exactly the events its own run emitted, in order, also after the run is over |
| `AnalysisJobs.HistoryContinues` | app/services/analysis.py:151-186 | between any two moments progress only grows at its end, a stored report stays and its row is never in progress again, and a deleted row never returns |
| `AnalysisJobs.OnlyOwnRunStarts` | app/services/analysis.py:232-244 | a row becomes running only by its own run, not begun before, and with no other row of the submission in progress |
| `AnalysisJobs.SupersededRunStops` | app/models/analysis.py:46-47 | over any further actions: a row written off before its run began stays failed, without report or progress, as long as a newer row of its submission is in progress |
| `AnalysisJobs.ExpiringWritesOff` | app/services/analysis.py:91-99 | such a row comes from a request that writes off a stale row whose run has not begun |
| `AnalysisJobs.RunAlone` | app/services/analysis.py:225-316 | undisturbed, a handed run goes through all its steps to `done`: its row, written out, with report, copies, events as progress and time of completion, and no other row changed |
| `AnalysisJobs.BrokenRunAlone` | app/services/analysis.py:267-279 | undisturbed, a handed run that breaks after some events leaves its row `failed`, written out, with error, time of completion, no report and its events as progress; no other row changes and nothing of the submission is in progress |
| `AnalysisJobs.BrokenRunIsReplaced` | app/services/analysis.py:102-131 | the next undisturbed request then makes a fresh row beside the failed one |
| `AnalysisJobs.OrphanIsFailed` | app/services/analysis.py:238-241 | marking a row whose submission is gone as failed sets status, error and time of completion and nothing else |
| `AnalysisJobs.OrphanLeavesNoTrace` | app/services/analysis.py:233-241 | but in every reachable state that row is gone with its submission, so that the step ends the run without writing |
| `AnalysisJobs.OnlyStaleRowsExpire` | app/services/analysis.py:91-99 | a row fails only by its own run or by a request when it is at least 15 minutes old |
| `AnalysisJobs.OnlyOwnRunReports` | app/services/analysis.py:163-186 | report and progress of a row are written only by the run handed that row |
| `AnalysisJobs.AnswerIsActive` | app/services/analysis.py:102-131 | a request's answer is a row of its submission that is in progress at that moment, and `created` is true exactly for the request that made it |
| `AnalysisJobs.RequestAlone` | app/services/analysis.py:91-131 | undisturbed, a request returns a row less than 15 minutes old untouched, writes off an older one and makes a fresh row, or makes the first; every row written out |
| `AnalysisJobs.PollAlone` | app/services/analysis.py:91-99 | undisturbed, a poll writes off an old row in the same way, and otherwise changes nothing |
| `AnalysisJobs.RacingRequests` | app/services/analysis.py:118-130 | of two requests that both found nothing the first to insert makes the row and the other is answered with it |
| `AnalysisJobs.RefusedWithoutSubmission` | app/services/analysis.py:118-128 | a request whose submission was deleted meanwhile makes no row |
| `AnalysisJobs.FinishMeetsExpiry` | app/services/analysis.py:91-99 | a run that finishes between the reading and the writing of an expiring request is shown `failed` with its report stored; one that finishes right after it is `done` and keeps the error |

## Left out

- `difflib` itself: alignments and ratios are parameters with its documented contract, so nothing is said about which alignment is found.
- `round(...)` of displayed similarities, p-values and lifts; floating-point rounding in general.
- Network, PDF extraction, figure and table regions, language-model calls, SQL text, vector search and full-text ranking; query results are inputs.
- Timestamps, labels and `_classify` of revision entries, and `_unwrap`: patches arrive unwrapped, with a deletion as a missing value.
- `_prefetch_versions` and the threads around it: a version is a function of its URL, as the code demands of `fetch_version`.
- The inputs' digits: the stand-in pattern and the label numbers know the ASCII digits only, where Python's `\d` takes every Unicode digit.
- In-place lists, dictionaries and sets of the body diff are sequences, maps and sets that the methods reassign; no aliasing is modelled there.
- Figures.FiguresReachMerge: asks that no word of a text paragraph opens like a stand-in, because a word diff may cut a text so that a fragment looks like one; how far the bodies may go beyond that is not stated.
- AlignmentLaws.AlignmentSays: of a single pair of similar paragraphs that holds the break marker it says nothing; what is lost of such a pair is the subject of `ExactReading`.
- ShortBodies.ShortBodiesReadExactly: one bound for all alignments; a longer body may still be read exactly, as `ExactReading.ReadsExactlyUnlessCut` says of each run.
- MediaMatching.RematchMediaLabels: the factor of two covers the phase before the same-label fallback, which adds pairs below the threshold.
- BodyAttachment.AttachBodyDiffs: images are never empty byte strings, and an extracted text that is missing is the empty text.
- Linker.FindLinks: a venue made of blanks only raises in `venue_sort_key` and is excluded; title normalisation and the trigram query are inputs.
- BlockMerge.MergeBlocks: infinite rectangles, and the re-extraction of a merged group's text with its clean-up, are not part of this model.
- HybridSearch.PickWithoutDuplicates: the result need not be sorted by final score, since a kept row may score below its position; row ids are distinct, as the keys of a dict are.
- HybridSearch.NewestWins: stated for the two retrievers the search uses.
- AnalysisJobs.Safety: `failed` is not final and expiry reads and writes in two steps, as in the code; each commit is one atomic step that writes the columns it changed; the similar-paper rows of a finished run are not modelled.
- Statistics.AcceptContrast: ratings, lifts and the ordering of patterns built around the tails are not modelled.
- `_merged_box_rects`, `_merge_close_text_blocks`, `_stitch_split_sentences`, sharing, invitations, rate limits and configuration checks: easier relatives of what is proved.
