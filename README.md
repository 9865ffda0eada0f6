# piano-vision: key layout, press debouncing and accuracy scoring in Dafny

piano-vision watches a video of a piano keyboard and reports which keys are
pressed. This project models the integer and bookkeeping part of that
pipeline and proves properties of it. Image processing stays with OpenCV, so
its results (rectangles, line segments, contour centres, fingertips) are
inputs here. The model covers:

- **The key layout** (`KeysManager`, `piano_vision/processors/keys_manager.py`).
  - The Note enumeration and `str(key)`.
  - The white-key construction: the in-place thinning of doubled edge pixels
    in the white-key band, the sorted boundary list, and the merge of
    boundaries closer than 5 px.
  - `label_keys`, step by step:
    - sort the black keys;
    - group them by the mean gap;
    - name groups of two C#, D# and groups of three F#, G#, A#;
    - infer the notes of single black keys from their neighbouring groups;
    - find the white key A1 between a G#, A# pair;
    - walk notes and octaves out from A1 over the white keys;
    - give the black keys their octaves around A#1.

  `Key` and `KeysManager` are classes whose fields the methods update.
  - Module `Labelling` states `label_keys` as functions over maps from key
    objects to their note and octave.
  - Module `KeysManagement` holds the methods that write the key objects.
    Each one's contract ties the new fields to the matching `Labelling`
    function.
- **Press detection** (`PressedKeyDetector`): the keys a contour centre lies
  in, the fingertip filter, and the debouncing of raw presses. A key's state
  is a `KeyState`. One call moves every key's state by the pure function
  `Advance`. The class's set and two maps are that state for all keys at
  once.
- **The keyboard bounder** (`KeyboardBounder`):
  - the corners of the keyboard's bounding rectangle;
  - the corner and size arithmetic handed to the perspective warp;
  - the pick of the rotation angle among the detected line angles.
- **The accuracy scorer** (`calc_accuracy.py`):
  - Python's `find`, slicing, `split` and `join` on strings;
  - the parse of one bracketed line into a set of key names;
  - the per-line tallies summed by the counting loop;
  - the two printed ratios.

Integers are unbounded. They model Python's integers, which are unbounded
too. Note values are doubled (A = 0, A# = 1, ..., G# = 13) so the source's
half-integer enum values and its arithmetic modulo 7 become integer
arithmetic modulo 14. Python's floor division by a positive number agrees
with Dafny's `/`. The one truncating `int()` of a possibly odd sum is written
out (`WhiteKeys.TruncHalf`).

Three behaviours of the code are easy to misread, and the model follows
the code in each:

- **Debouncing.** With `STICKINESS = 2`, a key is pressed only after it is
  raw-active on three calls in a row, and released only after three absent
  calls in a row, not two. `PressDetection.PressTakesEffect` and
  `PressDetection.ReleaseTakesEffect` prove this.
- **Rotation.** `find_rotation` returns the middle angle in detection order,
  not the median angle its comment on line 25 names. See Findings.
- **Merged boundaries.** Not every consecutive pair of merged boundaries is
  a key. A trailing run of close boundaries emits no key, and the start of a
  key is the median of the run of close boundaries in front of it. See
  `WhiteKeys.WhiteKeyRectsShape`.

## Model

| member | source | states |
|---|---|---|
| Notes.Value | piano_vision/processors/keys_manager.py:7-19 | every note's (doubled) value is in 0..13, never 3 or 9 (no E# or B#), and is odd exactly for the sharps |
| Notes.FromValue | piano_vision/processors/keys_manager.py:7-19 | `Note(v)` finds the member with value v, and raises (None) exactly for values out of range or between E/F and B/C |
| Notes.FromValueOfValue | piano_vision/processors/keys_manager.py:7-19 | looking up a member's own value gives the member back |
| Notes.Shift | piano_vision/processors/keys_manager.py:157 | `Note((n.value + steps) % 7)`: when it succeeds, the result's value is the old one moved by `steps` whole steps modulo 7 |
| Notes.ShiftOfSharp | piano_vision/processors/keys_manager.py:157-159 | a sharp moved up two steps raises exactly for C# and G#, and moved down two steps exactly for D# and G#; gives the successful moves (A#+2 = C#, F#+2 = A#, ...) |
| Notes.ScaleNote | piano_vision/processors/keys_manager.py:179 | `Note((Note.A.value + d) % 7)` always succeeds for an integer d, and gives the natural note d letters above A |
| Notes.DoubleMod | piano_vision/processors/keys_manager.py:179 | doubling commutes with reduction modulo 7, so the doubled values track the source's modulo-7 arithmetic |
| Notes.ScaleNoteStep | piano_vision/processors/keys_manager.py:177-185 | neighbouring distances give neighbouring natural notes |
| Notes.Replace | piano_vision/processors/keys_manager.py:22 | `str.replace` leaves a string without the pattern unchanged |
| Notes.ReplaceSharpSuffix | piano_vision/processors/keys_manager.py:22 | replacing `_SHARP` by `#` turns `X_SHARP` into `X#` |
| Notes.ReplaceStep | piano_vision/processors/keys_manager.py:22 | replacing scans from the left and goes on after each replaced occurrence: when no occurrence of the pattern starts inside a, `(a + pat + b).replace(pat, rep)` is a, then rep, then b replaced |
| Notes.PrettyName | piano_vision/processors/keys_manager.py:21-22 | `pretty_name` as `name.replace("_SHARP", "#")`; what it spells is stated by Notes.PrettyNameSpelled |
| Notes.PrettyNameSpelled | piano_vision/processors/keys_manager.py:21-22 | `pretty_name` is the letter followed by `#` exactly for the sharps |
| Notes.NatToString | piano_vision/processors/keys_manager.py:39 | the decimal rendering of a natural number is non-empty and made of digits |
| Notes.NatToStringReadsBack | piano_vision/processors/keys_manager.py:39 | the decimal rendering reads back as the number |
| Notes.IntToString | piano_vision/processors/keys_manager.py:39 | `str(int)` is digits with a leading minus sign exactly for negatives |
| Notes.OctaveText | piano_vision/processors/keys_manager.py:39 | the octave as formatted (`None` when unset) holds no `,`, `[` or `]` |
| Notes.KeyLabel | piano_vision/processors/keys_manager.py:37-41 | `str(key)` is `??` exactly when the note is unset; otherwise the letter, `#` for a sharp, and the octave; it never holds `,`, `[` or `]` |
| Notes.KeyLabelExamples | piano_vision/processors/keys_manager.py:37-41 | C#4, A-1, G#None (octave unset) and ?? (note unset) |
| Keys.Key.constructor | piano_vision/processors/keys_manager.py:26-32 | a new key has the given rectangle and no note or octave |
| Keys.Key.ToString | piano_vision/processors/keys_manager.py:37-41 | `??` exactly when the note is unset, else the pretty name followed by the octave text |
| Keys.InsertByX | piano_vision/processors/keys_manager.py:128 | inserting into a list sorted by x keeps it sorted and adds exactly the key |
| Keys.SortByX | piano_vision/processors/keys_manager.py:128 | `sort(key=lambda k: k.x)` gives a list sorted by x that is a permutation of the input |
| Keys.InsertByXStable | piano_vision/processors/keys_manager.py:128 | inserting a key puts it after every key with the same x, so the keys at each x keep their order |
| Keys.SortByXStable | piano_vision/processors/keys_manager.py:128 | the sort is stable: for every x, the keys at that x come out in the order they had in the input |
| Keys.SortByXDistinct | piano_vision/processors/keys_manager.py:128 | sorting keeps a list free of repeated key objects |
| Keys.SortedKeys | piano_vision/processors/keys_manager.py:128 | a key is in the sorted list exactly when it is in the list |
| WhiteKeys.Step | piano_vision/processors/keys_manager.py:91-97 | one iteration of the column loop at column col, with its two bounds `col < len - 3` and `col < len - 2`; it keeps the row length, and WhiteKeys.StepEffect states what it changes |
| WhiteKeys.Suppressed | piano_vision/processors/keys_manager.py:90-97 | the row after the whole column loop; WhiteKeys.SuppressionProperties states its properties and WhiteKeys.SuppressRow computes it in place |
| WhiteKeys.NonZeroCountUpdate | piano_vision/processors/keys_manager.py:93-97 | writing a pixel changes the number of edge pixels by what leaves and what arrives |
| WhiteKeys.StepEffect | piano_vision/processors/keys_manager.py:91-97 | one iteration at column col writes only col..col+2, adds no edge pixel, leaves col or col+1 empty when col < len-2, and never writes the last column |
| WhiteKeys.SuppressedUpToInvariant | piano_vision/processors/keys_manager.py:91-97 | after columns 0..c-1: no new edge pixels, columns from c+2 untouched, every pixel 0 or a value of the row, and no two adjacent edge pixels before column c |
| WhiteKeys.SuppressionProperties | piano_vision/processors/keys_manager.py:90-97 | the thinned row is no longer, has no more edge pixels, holds only 0 or the row's own values, has no two adjacent edge pixels before column len-2, and keeps its last pixel |
| WhiteKeys.SuppressDoubledEdges | piano_vision/processors/keys_manager.py:90-97 | the nested loop updates the band in place so that every row becomes its thinned form |
| WhiteKeys.SuppressRow | piano_vision/processors/keys_manager.py:91-97 | the inner loop thins one row in place and leaves every other row alone |
| WhiteKeys.MidX | piano_vision/processors/keys_manager.py:106 | `int(round((x1 + x2) / 2))` is the exact midpoint, or for a half-way midpoint the even one of its two neighbours |
| WhiteKeys.Insert | piano_vision/processors/keys_manager.py:106 | adding to the strictly sorted boundary list keeps it strictly sorted and adds exactly the value |
| WhiteKeys.InsertMids | piano_vision/processors/keys_manager.py:103-106 | the boundary list gains exactly the midpoints of the segments |
| WhiteKeys.Boundaries | piano_vision/processors/keys_manager.py:102-109 | `sorted(boundaries)` is strictly increasing and holds exactly 0, the band width and every segment midpoint |
| WhiteKeys.RunStart | piano_vision/processors/keys_manager.py:111-122 | the run of close boundaries that ends at boundary i starts at or before i |
| WhiteKeys.RunIsClose | piano_vision/processors/keys_manager.py:116-117 | every gap inside a run is at most 5 px, and a gap wider than 5 px (or the list start) precedes it |
| WhiteKeys.TruncHalf | piano_vision/processors/keys_manager.py:121 | `int()` of half an integer, truncating toward zero; stated by WhiteKeys.TruncHalfTowardZero |
| WhiteKeys.TruncHalfTowardZero | piano_vision/processors/keys_manager.py:121 | `int(s / 2)` truncates toward zero: it is within one half of s/2, on the side of zero, for negative sums too |
| WhiteKeys.Median | piano_vision/processors/keys_manager.py:121 | `int(np.median(close))`: the middle element, or the truncated mean of the two middle ones; WhiteKeys.MedianBounds bounds it by the run's first and last element |
| WhiteKeys.MedianBounds | piano_vision/processors/keys_manager.py:121 | the median of a sorted run lies between its first and last boundary |
| WhiteKeys.KeyAt | piano_vision/processors/keys_manager.py:118-123 | the key a wide gap emits; its shape is stated by WhiteKeys.KeyAtShape |
| WhiteKeys.KeyAtShape | piano_vision/processors/keys_manager.py:118-123 | a wide gap emits a key with y 0, the frame height, width above 5 px, ending on the next boundary and starting inside the run before it |
| WhiteKeys.KeysUpTo | piano_vision/processors/keys_manager.py:113-123 | the keys emitted before boundary n; WhiteKeys.KeysUpToKeys, KeysUpToEnds, KeysUpToLastEnd and KeysUpToOrdered state their properties |
| WhiteKeys.KeysUpToKeys | piano_vision/processors/keys_manager.py:113-123 | every emitted key comes from a wide gap |
| WhiteKeys.KeysUpToEnds | piano_vision/processors/keys_manager.py:113-123 | the keys emitted before boundary n end no later than the start of n's run |
| WhiteKeys.KeysUpToLastEnd | piano_vision/processors/keys_manager.py:113-123 | after a wide gap, the last emitted key ends exactly at the start of the current run |
| WhiteKeys.KeysUpToOrdered | piano_vision/processors/keys_manager.py:113-123 | the emitted keys are in increasing x and do not overlap |
| WhiteKeys.WhiteKeyRects | piano_vision/processors/keys_manager.py:111-125 | all keys of a boundary list; WhiteKeys.WhiteKeyRectsShape states their shape and WhiteKeys.MergeBoundaries computes them with the source's loop |
| WhiteKeys.WhiteKeyRectsShape | piano_vision/processors/keys_manager.py:111-125 | the white keys span the frame height, are wider than 5 px, end on boundaries, are in order without overlap, and a trailing run of close boundaries emits no key |
| WhiteKeys.RunCollapses | piano_vision/processors/keys_manager.py:116-123 | a run of close boundaries becomes one key whose start is the run's median |
| WhiteKeys.KeyInPrefix | piano_vision/processors/keys_manager.py:113-123 | a key emitted at gap i is among the keys emitted before any later boundary |
| WhiteKeys.MergeStep | piano_vision/processors/keys_manager.py:113-123 | a close gap extends the run and emits nothing; a wide gap emits the run's key and starts a new run |
| WhiteKeys.MergeBoundaries | piano_vision/processors/keys_manager.py:111-125 | the merge loop with its `close` list returns exactly the keys WhiteKeyRects describes |
| WhiteKeys.FindWhiteKeys | piano_vision/processors/keys_manager.py:83-125 | the band is thinned in place row by row, and the keys are the merge of the boundary list of the given segments |
| Labelling.Gaps | piano_vision/processors/keys_manager.py:129-132 | one gap per neighbouring pair of black keys, the x distance from the earlier to the later |
| Labelling.Mean | piano_vision/processors/keys_manager.py:133 | the mean gap: the mean times the number of gaps is the sum of the gaps |
| Labelling.GapsTelescope | piano_vision/processors/keys_manager.py:129-133 | the gaps add up to the distance from the first key to the last |
| Labelling.Groups | piano_vision/processors/keys_manager.py:135-141 | the grouping of the sorted black keys by the mean gap; Labelling.GroupsFlatten, GroupsGapsInside, GroupsGapsBetween and GroupsShape state its properties |
| Labelling.BlackGroups | piano_vision/processors/keys_manager.py:128-141 | the groups of the sorted black keys formed with their mean gap; Labelling.GroupsShape states their shape |
| Labelling.GroupsUpTo | piano_vision/processors/keys_manager.py:135-141 | the groups are never empty and the last group ends with the latest key |
| Labelling.GroupsFlatten | piano_vision/processors/keys_manager.py:135-141 | the groups concatenate back to the sorted black keys |
| Labelling.GroupsGapsInside | piano_vision/processors/keys_manager.py:138-139 | every gap inside a group is below the mean gap |
| Labelling.GroupsGapsBetween | piano_vision/processors/keys_manager.py:140-141 | every gap between two neighbouring groups is at least the mean gap |
| Labelling.FlattenDistinct | piano_vision/processors/keys_manager.py:135-141 | groups of a list without repeated keys share no key and repeat none |
| Labelling.GroupsShape | piano_vision/processors/keys_manager.py:135-141 | the grouping partitions the black keys into non-empty runs split exactly where the gap reaches the mean |
| Labelling.Patterns | piano_vision/processors/keys_manager.py:143-151 | the pattern pass over all groups; Labelling.PatternsClosedForm and ApplyPatternFrame state what it writes |
| Labelling.ApplyPatternFrame | piano_vision/processors/keys_manager.py:143-151 | a pattern pass writes only its own group |
| Labelling.ApplyPatternPlace | piano_vision/processors/keys_manager.py:143-151 | a pattern pass gives each place of a pair or triple its pattern note and leaves other group sizes alone |
| Labelling.PatternsClosedForm | piano_vision/processors/keys_manager.py:143-151 | after the pattern loop pairs read C#, D#, triples read F#, G#, A#, and every other key keeps its note |
| Labelling.InferStep | piano_vision/processors/keys_manager.py:154-159 | the inference for the single key of group i; Labelling.InferStepFrame and SinglesInferredStep state what it writes and when it raises |
| Labelling.Singles | piano_vision/processors/keys_manager.py:153-159 | the inference loop over all groups; Labelling.SinglesClosedForm, InferredLast, SinglesStayFailed and SinglesRaise state its result |
| Labelling.InferStepFrame | piano_vision/processors/keys_manager.py:153-159 | an inference pass writes only the key of its own single-key group |
| Labelling.SinglesClosedForm | piano_vision/processors/keys_manager.py:153-159 | the inference loop changes only single keys, and when no `Note(...)` raises each holds the note taken from its previous or next group |
| Labelling.SinglesFrameStep | piano_vision/processors/keys_manager.py:153-159 | a pass keeps every key outside the single groups seen so far |
| Labelling.SinglesInferredStep | piano_vision/processors/keys_manager.py:153-159 | a pass keeps every inferred single key as described and describes its own |
| Labelling.InferredEarlier | piano_vision/processors/keys_manager.py:153-159 | a single key inferred before the current pass keeps its note and its description |
| Labelling.InferredLast | piano_vision/processors/keys_manager.py:154-159 | the current pass gives its single key the previous group's last note moved up two steps, or the next group's first note moved down two steps |
| Labelling.SinglesStayFailed | piano_vision/processors/keys_manager.py:157-159 | once `Note(...)` has raised, nothing changes any more |
| Labelling.SinglesRaise | piano_vision/processors/keys_manager.py:156-157 | two single keys after a group ending in A# make the inference raise (A#+2 = C#, then C#+2 is no note) |
| Labelling.PatternsThenSinglesRaise | piano_vision/processors/keys_manager.py:143-159 | a triple followed by two single keys always makes the inference raise |
| Labelling.FirstMatch | piano_vision/processors/keys_manager.py:164-172 | the first white key from an index on that lies between a consecutive G#, A# pair, or none |
| Labelling.AnchorIndex | piano_vision/processors/keys_manager.py:163-174 | the search ends at a matching white key that no earlier one (from index 1) matches; a match at index 0 is kept only when no later key matches; None exactly when no key matches |
| Labelling.AnchorMarks | piano_vision/processors/keys_manager.py:163-174 | the labels the anchor search writes; Labelling.AnchorMarksFrame and AnchorMarked state them |
| Labelling.AnchorMarked | piano_vision/processors/keys_manager.py:169-170 | the anchor reads A, octave 1 |
| Labelling.AnchorMarksFrame | piano_vision/processors/keys_manager.py:163-174 | the anchor search writes white keys only |
| Labelling.RightWalk | piano_vision/processors/keys_manager.py:177-180 | the right walk over the first k white keys; Labelling.RightWalkNotes, RightWalkOctaves and RightWalkFrame state what it writes |
| Labelling.RightWalkNotes | piano_vision/processors/keys_manager.py:177-179 | the white key d places right of A1 reads the natural note d letters above A |
| Labelling.RightWalkOctaves | piano_vision/processors/keys_manager.py:177-180 | the white key d places right of A1 has octave 1 + d // 7 |
| Labelling.RightWalkFrame | piano_vision/processors/keys_manager.py:177-180 | the right walk writes no other key |
| Labelling.LeftWalk | piano_vision/processors/keys_manager.py:182-185 | the left walk over the first j keys of `W[a - 1::-1]`; Labelling.LeftWalkNotes, LeftWalkOctaves and LeftWalkFrame state what it writes |
| Labelling.LeftWalkNotes | piano_vision/processors/keys_manager.py:182-184 | the d-th key of the backward slice reads the natural note d letters below A |
| Labelling.LeftWalkOctaves | piano_vision/processors/keys_manager.py:182-185 | the d-th key of the backward slice has octave -(d // 7) |
| Labelling.LeftWalkFrame | piano_vision/processors/keys_manager.py:182-185 | the left walk writes no other key |
| Labelling.Walks | piano_vision/processors/keys_manager.py:176-185 | both white walks; Labelling.WalksNotes, WalksOctaves and WalksFrame state what they write |
| Labelling.WalksNotes | piano_vision/processors/keys_manager.py:176-185 | after both walks every white key reads its note counted from A1, wrapping round the whole list when A1 is at index 0 |
| Labelling.WalksOctaves | piano_vision/processors/keys_manager.py:176-185 | after both walks every white key has its octave counted from A1 |
| Labelling.WalksFrame | piano_vision/processors/keys_manager.py:176-185 | the white walks write no black key |
| Labelling.NearestRight | piano_vision/processors/keys_manager.py:187 | `min(filter(...))` returns an index of the list, or None for the ValueError on an empty filter |
| Labelling.NearestKeeps | piano_vision/processors/keys_manager.py:187 | in a sorted list no later key beats a key already right of x |
| Labelling.NearestIsFirstRight | piano_vision/processors/keys_manager.py:187 | in a sorted list `min` finds a key right of x with none before it |
| Labelling.NearestIsFirst | piano_vision/processors/keys_manager.py:187 | in a sorted list `min` picks exactly the first key right of the anchor |
| Labelling.IndexOf | piano_vision/processors/keys_manager.py:189 | `list.index` gives the first position holding the object |
| Labelling.IndexOfDistinct | piano_vision/processors/keys_manager.py:189 | in a list without repeats `index` finds a key at its own position |
| Labelling.BlackRight | piano_vision/processors/keys_manager.py:191-193 | the octaves of the black keys right of A#1; Labelling.BlackRightClosedForm and BlackRightFrame state them |
| Labelling.BlackRightClosedForm | piano_vision/processors/keys_manager.py:191-193 | the black key d places right of A#1 has octave 1 + d // 5 |
| Labelling.BlackRightFrame | piano_vision/processors/keys_manager.py:191-193 | the right black pass writes no other key |
| Labelling.BlackLeft | piano_vision/processors/keys_manager.py:195-197 | the octaves of the black keys left of A#1; Labelling.BlackLeftClosedForm and BlackLeftFrame state them |
| Labelling.BlackLeftClosedForm | piano_vision/processors/keys_manager.py:195-197 | black key i left of A#1 at index p has octave -((p - i) // 5) |
| Labelling.BlackLeftFrame | piano_vision/processors/keys_manager.py:195-197 | the left black pass writes no other key |
| Labelling.AnchorFirstRight | piano_vision/processors/keys_manager.py:166-189 | the first black key right of an anchor is the A# of the pair that brackets it, never index 0 |
| Labelling.FirstRightUnique | piano_vision/processors/keys_manager.py:187 | only one index holds the first key right of x |
| Labelling.Spread | piano_vision/processors/keys_manager.py:176-197 | the spread from the anchor keeps both key lists; Labelling.SpreadNotes, SpreadBlackOctaves, SpreadFrame and SpreadBlacks state the labels it writes |
| Labelling.SpreadBlackOctaves | piano_vision/processors/keys_manager.py:187-197 | with A#1 at p >= 1 the black pass succeeds and gives every black key its octave counted from A#1, the A#1 itself octave 1 |
| Labelling.SpreadNotes | piano_vision/processors/keys_manager.py:187-197 | the black pass changes octaves only |
| Labelling.SpreadFrame | piano_vision/processors/keys_manager.py:187-197 | the black pass writes no white key |
| Labelling.SpreadBlacks | piano_vision/processors/keys_manager.py:176-197 | from an anchor bracketed by G#, A#, the spread succeeds and numbers every black key's octave from that A# |
| Labelling.Label | piano_vision/processors/keys_manager.py:127-197 | `label_keys`: the black keys come out sorted by x; the white keys come out sorted when the run reaches the end and are otherwise either sorted or as given, and in every case a permutation of the input |
| Labelling.Place | piano_vision/processors/keys_manager.py:163-197 | the anchor search and spread keep both key lists; Labelling.LabelSpreads, LabelNoAnchor and LabelNoAnchorWhiteNotes state its labels |
| Labelling.LabelUnfoldsRaised | piano_vision/processors/keys_manager.py:127-159 | when the inference raises, label_keys ends with the black keys sorted, the white keys unsorted and no octave set |
| Labelling.LabelUnfoldsPlaced | piano_vision/processors/keys_manager.py:127-197 | otherwise label_keys goes on with both lists sorted |
| Labelling.LabelSpreads | piano_vision/processors/keys_manager.py:163-197 | with an anchor, it is a candidate white key and label_keys ends with the spread from it |
| Labelling.LabelWhites | piano_vision/processors/keys_manager.py:161-185 | with an anchor, the white keys end sorted and every one reads the note and octave counted from A1 |
| Labelling.LabelBlacks | piano_vision/processors/keys_manager.py:187-197 | with an anchor, label_keys runs to the end and every black key has its octave counted from the A# right of A1 |
| Labelling.LabelKeepsBlackNotes | piano_vision/processors/keys_manager.py:161-197 | after the inference, label_keys changes no black note |
| Labelling.LabelNoAnchor | piano_vision/processors/keys_manager.py:163-176 | without an anchor label_keys runs to the end, sorts both lists and sets no white note and no octave |
| Labelling.LabelNoAnchorWhiteNotes | piano_vision/processors/keys_manager.py:163-176 | without an anchor every white key keeps its note and octave |
| Labelling.LabelRaises | piano_vision/processors/keys_manager.py:153-161 | when the inference raises, label_keys fails with the white keys unsorted and all octaves as before |
| Labelling.LabelRaisesOnTripleThenSingles | piano_vision/processors/keys_manager.py:135-159 | black keys grouped as a triple followed by two single keys make label_keys raise, whatever the notes were |
| Labelling.InferenceOf | piano_vision/processors/keys_manager.py:128-159 | the note inference on the grouped black keys; Labelling.InferenceClosedForm, InferenceKeepsPatterns and InferenceFrame state its result |
| Labelling.AnchorOf | piano_vision/processors/keys_manager.py:163-174 | the anchor index the search ends with; Labelling.AnchorFirstRight and LabelSpreads state it |
| Labelling.InferenceAt | piano_vision/processors/keys_manager.py:143-159 | after both loops a pair or triple key reads its pattern note, a single key its inferred note, and a key of a larger group its old note |
| Labelling.InferenceKeepsPatterns | piano_vision/processors/keys_manager.py:153-159 | the inference loop leaves groups of two or more alone |
| Labelling.InferenceClosedForm | piano_vision/processors/keys_manager.py:143-159 | the two loops in closed form, for every key of every group |
| Labelling.InferenceGroupsFrame | piano_vision/processors/keys_manager.py:143-159 | the two loops write only keys of the groups |
| Labelling.InferenceFrame | piano_vision/processors/keys_manager.py:143-159 | label_keys writes no note of a key outside the black keys before the white walks |
| Labelling.LabelBlackNotes | piano_vision/processors/keys_manager.py:135-159 | when the inference does not raise, every black key ends with the note its group gives it |
| Labelling.LabelKeepsGroupNote | piano_vision/processors/keys_manager.py:143-197 | a key of a black group keeps its inferred note to the end |
| KeysManagement.LabelsOf | piano_vision/processors/keys_manager.py:31-32 | the note and octave fields of the keys, as label maps |
| KeysManagement.Distances | piano_vision/processors/keys_manager.py:129-132 | the loop computes exactly the gaps |
| KeysManagement.GroupKeys | piano_vision/processors/keys_manager.py:135-141 | the loop builds exactly the groups |
| KeysManagement.GroupsWithin | piano_vision/processors/keys_manager.py:135-141 | the groups hold only keys of the layout |
| KeysManagement.SetNote | piano_vision/processors/keys_manager.py:146 | writing a note changes that key's note and nothing else |
| KeysManagement.SetOctave | piano_vision/processors/keys_manager.py:188 | writing an octave changes that key's octave and nothing else |
| KeysManagement.SetLabel | piano_vision/processors/keys_manager.py:169-170 | writing note and octave changes that key's label and nothing else |
| KeysManagement.ApplyPatterns | piano_vision/processors/keys_manager.py:143-151 | the pattern loop leaves the keys showing Patterns |
| KeysManagement.InferOne | piano_vision/processors/keys_manager.py:154-159 | one pass fails exactly when `Note(...)` raises, and otherwise leaves the keys showing InferStep |
| KeysManagement.InferSingles | piano_vision/processors/keys_manager.py:153-159 | the inference loop fails exactly when Singles does, leaving the keys showing Singles |
| KeysManagement.AnchorFoundAt | piano_vision/processors/keys_manager.py:171-174 | a search that breaks at a match past index 0 ends there with that key and any index-0 match marked |
| KeysManagement.AnchorSearchExhausted | piano_vision/processors/keys_manager.py:163-174 | a search that runs out ends with the index-0 match or with none |
| KeysManagement.FindAnchor | piano_vision/processors/keys_manager.py:163-174 | the nested search returns exactly AnchorIndex and leaves the keys showing AnchorMarks |
| KeysManagement.RightWalkStep | piano_vision/processors/keys_manager.py:177-180 | one step of the right walk writes the next key's note and octave |
| KeysManagement.LeftWalkStep | piano_vision/processors/keys_manager.py:182-185 | one step of the left walk writes the next key of the backward slice |
| KeysManagement.WalkRight | piano_vision/processors/keys_manager.py:177-180 | the right walk loop leaves the keys showing RightWalk |
| KeysManagement.WalkLeft | piano_vision/processors/keys_manager.py:182-185 | the left walk loop, over `W[a - 1::-1]`, leaves the keys showing LeftWalk |
| KeysManagement.SpreadBlackRight | piano_vision/processors/keys_manager.py:191-193 | the right black loop leaves the keys showing BlackRight |
| KeysManagement.SpreadBlackLeft | piano_vision/processors/keys_manager.py:195-197 | the left black loop, over `B[p - 1::-1]`, leaves the keys showing BlackLeft |
| KeysManagement.KeysManager.constructor | piano_vision/processors/keys_manager.py:44-59 | one fresh, unlabelled key per black and per white rectangle, no key object in both lists |
| KeysManagement.KeysManager.LabelKeys | piano_vision/processors/keys_manager.py:127-197 | label_keys updates the key lists and every key's note and octave in place exactly as Label says, fails exactly when the source raises, and keeps each key in one list only |
| KeysManagement.LabelLists | piano_vision/processors/keys_manager.py:127-197 | the body of label_keys: the black list sorted, the white list sorted unless the inference raised, and the keys showing Label's labels |
| KeysManagement.BlackNoteKeys | piano_vision/processors/keys_manager.py:129-159 | gaps, groups, patterns and inference on the key objects, failing exactly when the inference raises |
| KeysManagement.PlaceKeys | piano_vision/processors/keys_manager.py:163-197 | anchor search and spread on the key objects, failing exactly when Place does |
| KeysManagement.SpreadKeys | piano_vision/processors/keys_manager.py:176-197 | the walks and the black octave passes on the key objects, failing exactly when `min` finds no black key right of A1 |
| KeysManagement.SpreadFound | piano_vision/processors/keys_manager.py:187-197 | when `min` finds a black key, the spread is the walks followed by the two black octave passes around the key's first index |
| KeysManagement.SpreadNotFound | piano_vision/processors/keys_manager.py:187 | when `min` finds nothing, the spread fails after the walks |
| KeysManagement.MakeKeys | piano_vision/processors/keys_manager.py:58-59 | one fresh unlabelled key per rectangle, in order, all different objects |
| KeysManagement.SortKeepsLayout | piano_vision/processors/keys_manager.py:128-161 | sorting keeps every key in its list, once, and in one list only |
| PressDetection.FingertipWithinKey | piano_vision/processors/pressed_key_detector.py:97-99 | `fingertip_within_key`: the point lies strictly inside the key's rectangle on both axes |
| PressDetection.Nominated | piano_vision/processors/pressed_key_detector.py:43-47 | the keys of the list that some centre lies strictly inside; PressDetection.Nominate computes it with the source's loop |
| PressDetection.Nominate | piano_vision/processors/pressed_key_detector.py:43-47 | the nested loop collects exactly the keys that some centre lies strictly inside |
| PressDetection.CoversExtend | piano_vision/processors/pressed_key_detector.py:44-47 | one more centre covers a key exactly when it or an earlier one lies inside |
| PressDetection.FilterByFingertips | piano_vision/processors/pressed_key_detector.py:49-54 | with fingertips given and non-empty, exactly the keys holding a fingertip stay; otherwise nothing is filtered |
| PressDetection.DropStale | piano_vision/processors/pressed_key_detector.py:60-66 | a key that is not raw-active loses its pending addition |
| PressDetection.CountIn | piano_vision/processors/pressed_key_detector.py:68-82 | the count-in loop for one key; PressDetection.PressedAgain and PressTakesEffect state its effect |
| PressDetection.CountOut | piano_vision/processors/pressed_key_detector.py:84-95 | the count-out loop for one key; PressDetection.ReleaseTakesEffect states its effect |
| PressDetection.Advance | piano_vision/processors/pressed_key_detector.py:59-95 | one call of `process_sticky_pressed_changes` for one key; PressDetection.AdvanceConsistent, AdvanceMoves, IdleStaysIdle, PressTakesEffect, ReleaseTakesEffect and PressInterrupted state its effect |
| PressDetection.AdvanceConsistent | piano_vision/processors/pressed_key_detector.py:59-95 | one call keeps the invariants: pending adds only for unpressed keys, pending removals only for pressed keys, counters in 1..STICKINESS |
| PressDetection.AdvanceMoves | piano_vision/processors/pressed_key_detector.py:68-95 | a key becomes pressed only on a call where it is active and is released only on one where it is absent |
| PressDetection.PressedAgain | piano_vision/processors/pressed_key_detector.py:70-71 | an active pressed key stays pressed and loses its pending removal |
| PressDetection.AbsentNotAdded | piano_vision/processors/pressed_key_detector.py:60-66 | an absent key has no pending addition after the call |
| PressDetection.IdleStaysIdle | piano_vision/processors/pressed_key_detector.py:59-95 | an idle absent key stays idle |
| PressDetection.PressTakesEffect | piano_vision/processors/pressed_key_detector.py:72-82 | an idle key active call after call counts down from STICKINESS and is pressed on call STICKINESS + 1, not before |
| PressDetection.ReleaseTakesEffect | piano_vision/processors/pressed_key_detector.py:84-95 | a pressed key absent call after call counts down from STICKINESS and is released on call STICKINESS + 1, not before |
| PressDetection.PressInterrupted | piano_vision/processors/pressed_key_detector.py:60-66 | one absent call before the press takes effect returns the key to idle |
| PressDetection.InvariantsPointwise | piano_vision/processors/pressed_key_detector.py:14-16 | the invariants on the set and maps hold exactly when every key's state is consistent |
| PressDetection.PressedKeyDetector.constructor | piano_vision/processors/pressed_key_detector.py:11-16 | nothing pressed, nothing pending, the invariants hold |
| PressDetection.PressedKeyDetector.ProcessStickyPressedChanges | piano_vision/processors/pressed_key_detector.py:59-95 | every key's state moves by Advance in place, and the invariants are kept |
| PressDetection.PressedKeyDetector.DropPendingAdds | piano_vision/processors/pressed_key_detector.py:60-66 | pending additions of absent keys are deleted, nothing else changes |
| PressDetection.PressedKeyDetector.StaleAdds | piano_vision/processors/pressed_key_detector.py:61-64 | `delete_after` lists exactly the pending additions of absent keys |
| PressDetection.PressedKeyDetector.DeleteAdds | piano_vision/processors/pressed_key_detector.py:65-66 | the listed keys lose their pending addition, nothing else changes |
| PressDetection.PressedKeyDetector.CountPressed | piano_vision/processors/pressed_key_detector.py:68-82 | each active key moves by CountIn |
| PressDetection.PressedKeyDetector.CountInKey | piano_vision/processors/pressed_key_detector.py:69-82 | one active key moves by CountIn, every other key is unchanged |
| PressDetection.PressedKeyDetector.CountReleased | piano_vision/processors/pressed_key_detector.py:84-95 | each pressed absent key moves by CountOut |
| PressDetection.PressedKeyDetector.CountDownReleases | piano_vision/processors/pressed_key_detector.py:84-93 | the pending removals count down, and removing the keys of `delete_after` gives every key its CountOut state |
| PressDetection.PressedKeyDetector.CountOutKey | piano_vision/processors/pressed_key_detector.py:86-93 | one pressed key's removal counter moves, and `release` says whether it leaves the pressed set |
| PressDetection.PressedKeyDetector.RemovePressed | piano_vision/processors/pressed_key_detector.py:94-95 | the listed keys leave the pressed set, nothing else changes |
| PressDetection.PressedKeyDetector.DetectPressedKeys | piano_vision/processors/pressed_key_detector.py:43-57 | the keys some centre falls in, narrowed by the fingertips, are one debounce step's input, and the result is the new pressed set |
| Bounder.FindBounds | piano_vision/processors/keyboard_bounder.py:43-44 | four corners top-left, top-right, bottom-left, bottom-right of the rectangle |
| Bounder.BoundedSection | piano_vision/processors/keyboard_bounder.py:46-61 | the source corners with the top ones moved OFFSET inwards, the upright destination rectangle, and the output size; fewer than three corners raise |
| Bounder.SectionOfBounds | piano_vision/processors/keyboard_bounder.py:43-61 | bounds from find_bounds give an output as large as the rectangle, keep the bottom corners and move the top corners OFFSET towards each other |
| Bounder.InsetMovesInwards | piano_vision/processors/keyboard_bounder.py:49 | for a keyboard wider than twice OFFSET, the top corners stay inside and in order |
| Bounder.Angles | piano_vision/processors/keyboard_bounder.py:16-21 | no lines give no angles |
| Bounder.AnglesLength | piano_vision/processors/keyboard_bounder.py:16-21 | one angle per segment |
| Bounder.FindRotation | piano_vision/processors/keyboard_bounder.py:16-25 | the loop appends every segment's angle in detection order and returns the one at index `int(len / 2)`, raising (None) exactly when there is none |
| Bounder.InsertElements | piano_vision/processors/keyboard_bounder.py:25 | insertion adds exactly the element |
| Bounder.InsertSorted | piano_vision/processors/keyboard_bounder.py:25 | insertion keeps a list sorted |
| Bounder.Sort | piano_vision/processors/keyboard_bounder.py:25 | a sorted permutation of the angles |
| Bounder.SortCount | piano_vision/processors/keyboard_bounder.py:25 | sorting keeps how many angles lie on each side of a value |
| Bounder.Median | piano_vision/processors/keyboard_bounder.py:25 | the median the comment on line 25 names: the middle element of the sorted angles; Bounder.MedianSplitsEvenly states it splits the angles evenly |
| Bounder.MedianSplitsEvenly | piano_vision/processors/keyboard_bounder.py:25 | the median is one of the angles with at most half of them below it and at most half above |
| Bounder.SortedCounts | piano_vision/processors/keyboard_bounder.py:25 | in a sorted list at most k elements lie below the k-th and at most n - 1 - k above it |
| Bounder.MiddleIsNotMedian | piano_vision/processors/keyboard_bounder.py:25 | angles 0, 5, 1 make find_rotation return 5, with two of three angles below it, where the median is 1 |
| Bounder.FindMedianRotation | piano_vision/processors/keyboard_bounder.py:16-25 | the rotation as the median of the detected angles, None when there are none |
| Accuracy.Find | calc_accuracy.py:13-14 | `find` is -1 exactly when the character is absent, else its first index |
| Accuracy.Slice | calc_accuracy.py:13-14 | `s[i:j]` counts negative bounds from the end, clamps, and gives "" for crossed bounds |
| Accuracy.Split | calc_accuracy.py:13-14 | `split` gives at least one piece |
| Accuracy.SplitAvoidsSeparator | calc_accuracy.py:13-14 | the first piece of `s.split(sep)` is a prefix of s and no piece holds the separator |
| Accuracy.JoinSplit | calc_accuracy.py:13-14 | joining the pieces of a split with the separator gives the string back |
| Accuracy.SplitJoin | calc_accuracy.py:13-14 | tokens free of the separator split back out of their join |
| Accuracy.Bracketed | calc_accuracy.py:13-14 | the text after the first `[` and before the first `]`; Accuracy.ParseWithoutBrackets states the case of a missing bracket |
| Accuracy.ParseLine | calc_accuracy.py:13-14 | the set of tokens between the brackets; Accuracy.ParseEmptyList, ParseWithoutBrackets, ParseRendered and ParseKeyLabels state what it parses |
| Accuracy.ParseEmptyList | calc_accuracy.py:13-14 | `[]` parses to the set holding the empty token, not to the empty set |
| Accuracy.ParseWithoutBrackets | calc_accuracy.py:13-14 | a line without brackets parses from all of it but its last character |
| Accuracy.ParseRendered | calc_accuracy.py:13-14 | a bracketed `, `-separated list of names free of `,`, `[` and `]` parses back to the set of its names, whatever follows it |
| Accuracy.ParseKeyLabels | piano_vision/processors/keys_manager.py:37-41 | key names as `str(key)` renders them parse back from a rendered line |
| Accuracy.LineTally | calc_accuracy.py:16-19 | the counters of one line pair; Accuracy.LineBalance and LineSwap state their balance and symmetry |
| Accuracy.LineBalance | calc_accuracy.py:16-19 | every truth token is matched or missed, every output token matched or spurious |
| Accuracy.Totals | calc_accuracy.py:12-19 | the counters after the first n line pairs; Accuracy.TotalsBalance, TotalsSwap and Count state them |
| Accuracy.TotalsBalance | calc_accuracy.py:12-19 | over the run, correct + false negatives is the truth count and correct + false positives the output count |
| Accuracy.TotalsSwap | calc_accuracy.py:12-19 | swapping the two files keeps the correct count and swaps the two kinds of error |
| Accuracy.LineSwap | calc_accuracy.py:16-18 | swapping one line pair keeps the matches and swaps the errors |
| Accuracy.TotalsStep | calc_accuracy.py:16-18 | each loop iteration adds the line pair's counters |
| Accuracy.ParseAll | calc_accuracy.py:13-14 | every line parsed, in order |
| Accuracy.CountLine | calc_accuracy.py:16-19 | one iteration moves the counters from i pairs to i + 1 and keeps them balanced |
| Accuracy.Count | calc_accuracy.py:12-19 | the loop raises (None) exactly when the output has fewer lines than the truth; otherwise it returns the totals, balanced |
| Accuracy.CountPairs | calc_accuracy.py:12-19 | the loop over n pairs computes the totals of n pairs |
| Accuracy.Score | calc_accuracy.py:9-19 | the counters of the two files' parsed lines, or None when the output is shorter |
| Accuracy.Ratio | calc_accuracy.py:24-25 | a ratio, None exactly where Python divides by zero |
| Accuracy.PrintedPrecision | calc_accuracy.py:24 | the ratio line 24 prints as "Precision": correct over correct plus false negatives; Accuracy.PrintedLabelsSwapped states it is the recall |
| Accuracy.PrintedRecall | calc_accuracy.py:25 | the ratio line 25 prints as "Recall": correct over correct plus false positives; Accuracy.PrintedLabelsSwapped states it is the precision |
| Accuracy.PrintedRatios | calc_accuracy.py:24-25 | the values printed: none when correct plus false negatives is 0 (line 24 raises and line 25 is never reached), only the first when correct plus false positives is 0 (line 25 raises), else both, each the stated ratio |
| Accuracy.RatiosMeanShares | calc_accuracy.py:12-25 | precision is the matched share of the output tokens and recall the matched share of the truth tokens |
| Accuracy.BalancedRatios | calc_accuracy.py:24-25 | for balanced counters the two ratios are those shares |
| Accuracy.PrintedLabelsSwapped | calc_accuracy.py:24-25 | the value printed as Precision is recall and the one printed as Recall is precision; one match and three false positives print Precision 100% |

## Left out

- OpenCV work is not modelled: colour conversion, blur, thresholds, Canny,
  Hough, contours, morphology, boundingRect and the warp. Its results are
  parameters: rectangles, segments, centres, fingertips and the 8-bit edge
  band.
- `threshold`, `find_key_contours` (with its contour-area filter), `get_diff`
  and `MIN_CONTOUR_AREA` are OpenCV pipelines and are not modelled.
  `mean_and_standard_dev` and `centre_of_contour` are not part of this model.
- The band crop of `find_white_keys` (lines 84-87) is not modelled. The band
  is an input, and the frame height is a parameter.
- Reference frames (`ref_frame`) and frame copies are not modelled.
- Drawing is not modelled: the quadrilateral of `get_bounded_section` (lines
  51-57), the circles and contours in `detect_pressed_keys`, and `cv2.line`.
- Bounder.FindRotation: the angle `degrees(atan((y2 - y1) / (x2 - x1)))` is
  a function parameter, so floating point is not modelled. Neither is
  NumPy's behaviour for vertical segments.
- Bounder.BoundedSection: corners are integers. The source turns them into
  float32 for OpenCV, which is not modelled.
- Accuracy.Score: file opening and reading are not modelled; the two files
  are their lists of lines. The percentage formatting of the prints is not
  modelled either. The source parses output line i inside the loop, and the
  model parses all lines first. Both raise exactly when the output is
  shorter, because parsing cannot fail.
- Accuracy.PrintedRatios: the printed ratios are exact fractions. The
  `* 100` scaling and the two-decimal rounding of lines 24-25 are not
  modelled.
- Labelling.Mean: the float mean of the gaps is the exact rational mean.
  Floating-point rounding near a gap equal to the mean is not modelled.
- KeysManagement.KeysManager.LabelKeys: requires at least two black keys.
  With none, line 135 indexes an empty list. With one, the mean of no gaps
  is undefined. The model does not represent these error paths.
- KeysManagement.KeysManager.LabelKeys: requires that no key object is
  both a black key and a white key (`Valid`). The two lists are built from
  separate rectangles (lines 58-59), so this always holds in the source.
- KeysManagement.KeysManager.constructor: does not call `label_keys` as line
  61 does. A caller creates the manager and then calls `LabelKeys`, whose
  contract carries the labelling.
- Set iteration order in `process_sticky_pressed_changes` is not modelled.
  The loops pick keys in any order, and the contracts hold for every order.
- PressDetection.PressedKeyDetector.DetectPressedKeys: the keys manager's
  lists are read, not changed. The model does not capture aliasing between
  the detector and a manager that is being relabelled.
- Re-calibration, the video loop, logging and hand and fingertip detection
  are outside these files and are not modelled.

## Findings

| source | as written | input that shows it | evidently intended | confidence | as-written member | corrected member |
|---|---|---|---|---|---|---|
| calc_accuracy.py:24-25 | "Precision" prints correct / (correct + false negatives) and "Recall" prints correct / (correct + false positives) | one matched key, three false positives, no miss: "Precision" prints 100% though a quarter of the output is right | precision = correct / (correct + false positives), recall = correct / (correct + false negatives) | not executed | Accuracy.PrintedLabelsSwapped | Accuracy.RatiosMeanShares |
| piano_vision/processors/keyboard_bounder.py:25 | returns `angles[int(len(angles) / 2)]` in detection order, commented "return median angle" | angles 0, 5, 1 give 5, with two of the three angles below it | the median angle, the middle one after sorting | not executed | Bounder.MiddleIsNotMedian | Bounder.MedianSplitsEvenly |
