# TMTK in Dafny

TMTK keeps topic maps. Every topic has property values; some properties identify
subjects, so topics that share such a value are the same topic and get merged. This
project models the merging engine of `src/topicmap.c` with the in-memory stores it rests
on, and proves exactly when it computes what it is for: the least identification of topics
that the stored values force, including those that only appear once topics inside values
have been replaced. Around the engine it models the parts of the toolkit that have an
invariant of their own: the page cache and the byte pages of the file store, query
evaluation, the role collapse of the XTM reader, and the skipping of ignored elements.

Check everything with `dafny verify dfyconfig.toml`.

## How it is built

Three levels. *Facts* (`Values`, `Facts`, `Rounds`, `Closures`, `Components`,
`DroppedValues`, `OnePass`, `SpreadLocators`): a property is a map from topics to values, a merge pass is a `Round` on
a sequence of such maps, and the theorems are about all runs of rounds. The equivalence
that merging must compute is stated with labellings: a labelling is *closed* when it gives one label to
topics with overlapping locator sets and to topics with values that are equal up to the
labelling; two topics are in the least equivalence when every closed labelling agrees on
them. *Tables* (`Tables`, `MergeSets`, `Survivors`): VIDs, topic lists and merge sets as plain values,
with the order of the lists, which decides which topic of a class stays.
*Objects* (`TextSetStores`, `PlainStores`, `PropertyStores`, `TopicMaps`, `ValueOps`):
the stores and the topic map with the source's fields and loops, each method proved
against the level above.

| files | source |
|---|---|
| TopicMaps, PropertyStores, Queries, MergedPuts | src/topicmap.c, stores/memstore/propertystore.c |
| MergeSets, Survivors, AddMergeListAsWritten, MergingAsWritten, TopicSets | src/topicmap.c, src/topicset.c |
| TextSetStores, PlainStores | stores/memstore/textsetstore.c, topicsetstore.c, slow_asidp.c |
| AsidpArrays, AsidpIndex, AsidpStores, AsidpRefinement | stores/memstore/asidp.c, slow_asidp.c |
| ValueOps, Values | src/asidp.c, src/textset.c, src/vt_topicset.c |
| VidArrays | the arrays of stores/memstore/propertystore.c |
| Pages, PageCache, LptPages, BtreePages | stores/filestore/page.c, storage.c, lptpage.c, btreepage.c |
| RoleCollapse | www-df/xtm_simple.c |
| Trees, Traversal | src/omnivore.c |

## Where the code departs from its intent

* `tm_topicmap_add_mergelist` (src/topicmap.c:2425-2492) is wrong in three ways: the copy
  loop runs to `len`, the size of the submitted array, not to the current size of the set
  (2451), which loses topics when the set has grown and reads beyond it when the array
  repeats a topic; after the head of the list is removed the new head becomes `prev` and is
  never compared (2463-2482); and the head is deleted without cutting its `next`, which frees
  the whole list (2465, compare 2475). `MergeSets.MergeLists.Add` is the repaired form and
  the one that `TopicMaps` uses. `AddMergeListAsWritten` models the function as it stands
  and proves exactly when one call does what is intended; `MergingAsWritten` does so for
  the calls of a pass, and says when the whole merge is the same.
* `_pstore_replace_topics` drops the value of a disappearing topic when the staying one
  has another value of a property without combination, if such values contain topics
  (608-635); the comment there says that the values may turn out equal later. So merging
  does not always compute the closure. `DroppedValues.ClosureExactly` says for which
  properties it does: all, unless one that holds topics identifies subjects next to
  another one. For those, `Closures.MergeIsCongruenceClosure` says for which merges: those
  where no lost identifying value is shared with another class.
  `DroppedValues.DroppingMayBeHarmless` shows a drop that matters nothing, and
  `DroppedValues.DroppingLosesAnIdentity` one that loses an identity even though the values
  would have turned out equal, because only the dropped value would have made them so.
* In a property that combines values but does not identify subjects, replacing a key also
  changes the values of topics that are merged with nothing, because the union is stored
  through `_pstore_vput` (658). `SpreadLocators` shows it and proves that it happens nowhere else.
* `asidp_equal` is not implemented (src/asidp.c:127), so a second put of an ASIDP for one
  topic aborts; `_make_array` aborts when merging makes two roles of one ASIDP equal
  (stores/memstore/asidp.c:466), `_insert_into_indexes` on an ASIDP with fewer than two
  memberships (293), and `topicset_replace_topics` when two members of a set become equal
  (src/vt_topicset.c:147). All of these are the outcome `Aborted`, and the
  contracts say exactly when it occurs.
* The commented-out assertion at src/topicmap.c:494-496 fails because inserting a key anew
  clears the store's normalized flag even when the list it joins is single.
  `TopicMap.ReplaceKeys` says exactly when that happens, `TopicMaps.MovedValueRekeys` is a
  case, and the loop then takes another round.
* `_mempropertystore_normalize` shrinks a topic array without storing the pointer back
  (stores/memstore/propertystore.c:452). `VidArrays.KeepFirst` stores it.
* `gs_btreeleafpage_copy_remaining` counts one record too many
  (stores/filestore/btreepage.c:516). `BtreePages` keeps that and proves that the split
  page is then never in order.
* `expat_char_data` skips data only where `ignore_depth < depth`
  (src/omnivore.c:1009), which is not so directly inside the ignored element, whose own
  character data thus ends up in the element around it. `Trees.StrippedIffNoLeak` gives
  the exact condition under which that is visible, `Trees.LeakExample` a document. If the
  document element itself is ignored there is no element around it and the source reads in
  front of its stack; `FeedDocument` fails exactly then.

## Model

| member | source | states |
|---|---|---|
| Rounds.RunSound | src/topicmap.c:450-553 | Merge soundness over whole runs: any labelling closed under the identification rules on the original facts gives a topic and its final representative the same label |
| Closures.MergeIsCongruenceClosure | src/topicmap.c:450-553 | Full merging computes the congruence closure of the original facts (two topics end with one representative if and only if every closed labelling identifies them) if and only if no lost ASIDP or TopicSet value is shared with another class |
| Closures.ClosedIffLostUnshared | src/topicmap.c:608-635 | Merge completeness, exactly: the merged partition of a settled run is closed under the identification rules on the original facts if and only if no identifying value that a representative lost is, up to the representatives, also the value of a topic of another class |
| Closures.ClosedIffClosure | src/topicmap.c:450-553 | The merged partition of any run is the least closed one as soon as it is closed at all, and only then |
| Closures.RunComplete | src/topicmap.c:608-635 | Special case: when no pass drops an identifying value, merging computes the closure |
| Closures.HarmlessDrops | src/topicmap.c:623-628 | Special case: where the identifying values of each resulting class are equal up to the representatives, merging computes the closure, whatever was dropped on the way |
| Closures.SingleValuedComplete | src/topicmap.c:608-635 | A test on the original facts: if topics that are forced together never have different ASIDP or TopicSet values, merging computes the closure |
| Closures.TopicFreeComplete | src/topicmap.c:610-622 | Where identifying properties hold only TextSets and Texts, merging always computes the closure, since a difference of texts ends it with an error |
| Closures.NotProneComplete | src/topicmap.c:450-553 | A test on the properties: when no identifying property that holds topics stands next to another identifying one, merging computes the closure, whatever is stored |
| DroppedValues.ClosureExactly | src/topicmap.c:608-635 | And exactly then: for every other collection of properties, of whatever types, there are facts for which a settled merge is not the closure |
| Closures.OnlyOneAgrees | src/topicmap.c:459-493 | The topics of a merge set never differ on a property that alone identifies subjects |
| Closures.RunValue | src/topicmap.c:557-776 | Whatever is dropped, the value a representative ends with is the original value of a topic it stands for, its topics replaced simultaneously by their representatives (for TextSets, OnePass.RunHeld) |
| Closures.RunHas | src/topicmap.c:575-607 | Whatever is dropped, a topic with a value leaves a final representative with one |
| Closures.TextsStay | src/topicmap.c:610-617 | A run that goes through never drops a text |
| Rounds.RunCarries | src/topicmap.c:557-670 | Conservation over a run: the representative of a topic carries every locator the topic ever had, in whatever order sets and properties are processed |
| OnePass.RunHeld | src/topicmap.c:557-670 | And nothing more, in a property that identifies subjects: every locator a representative ends with was held by a topic that it stands for |
| SpreadLocators.KeptToClassExactly | src/topicmap.c:636-665 | Exactly there: whatever is stored, locators stay with the topics they were given to if and only if the property identifies subjects, or none does |
| SpreadLocators.Spread | src/topicmap.c:658 | For any other combining property next to any identifying one, a merge after which a topic that was merged with nothing has a locator that it was never given |
| Closures.RunKeepsValue | src/topicmap.c:672-776 | For each property and topic by itself: if in no pass the topics merged with it have different values, its representative ends with its own value, its topics replaced simultaneously |
| Closures.LostDisputed | src/topicmap.c:606-632 | A value is lost only if in some pass the topics merged with its topic had different values |
| Rounds.RunLive | src/topicmap.c:108-153 | No topic is created by merging, and none that was replaced is a key or occurs in a value afterwards |
| Rounds.RunLength | src/topicmap.c:543-548 | A run of rounds that build merge sets is no longer than the number of live topics it used up |
| Rounds.RoundSound | src/topicmap.c:455-543 | One round merges only what every closed labelling identifies and keeps the labelling closed on the new facts |
| Rounds.RoundCarries | src/topicmap.c:557-670 | One round: every locator of a topic is in the value of its representative |
| Rounds.RoundKeepsValue | src/topicmap.c:557-776 | One round, for each property and topic by itself: where the topics merged with it agree, the representative has the image of its value, and no roles or members fell together |
| Rounds.RoundValue | src/topicmap.c:557-776 | One round, dropping or not: a value afterwards is the image of the value of a topic that its key represents |
| OnePass.RoundFirstValue | src/topicmap.c:567-632 | Whose value a pass keeps: of the topics of a merge set that have one after normalization, the first in the order of the set |
| OnePass.RoundHeld | src/topicmap.c:636-665 | One round, identifying TextSets: every locator of a value was held by a topic that its key represents |
| Rounds.RoundHas | src/topicmap.c:575-607 | One round, dropping or not: a topic with a value leaves a representative with one |
| Rounds.RoundLive | src/topicmap.c:525-538 | What a round disposes of is gone as a key and inside values; nothing new appears |
| Rounds.RoundIdle | src/topicmap.c:455-466 | A round that builds no merge set changes nothing and found every identifying value with one topic |
| Rounds.RoundShrinks | src/topicmap.c:455-543 | A round that builds a merge set leaves strictly fewer live topics |
| Rounds.RoundGood | src/topicmap.c:455-543 | Rounds keep the facts well formed: values equal or disjoint for combining properties, canonical for the others |
| Rounds.GoneIsTails | src/topicmap.c:525-538 | The topics replaced by a round are all members of the merge sets but the first of each, each counted once |
| OnePass.OnePassSettles | src/topicmap.c:450-553 | Where identifying values contain no topics, one pass leaves no identifying value with two topics |
| OnePass.ShortRun | src/topicmap.c:543-548 | So the loop makes at most two passes there, the representatives are those of the first, and the guard against endless merging never fires |
| OnePass.LocatorsGoThrough | src/topicmap.c:610-622 | A pass over locator sets neither contradicts nor collides, whatever they are |
| OnePass.KeysStaySingle | src/topicmap.c:498 | After the keys have been replaced every identifying value still has one topic |
| Survivors.PassPartition | src/topicmap.c:528-534 | The merge sets of a pass are disjoint, and the first topic of each stands for all of it |
| Survivors.FirstStays | stores/memstore/propertystore.c:436-447 | Where one property identifies subjects, a pass replaces each topic by the first in the store's list of its value |
| Survivors.OthersStay | stores/memstore/propertystore.c:432-434 | A topic without a value of that property stays |
| Survivors.SubmittedInOrder | stores/memstore/propertystore.c:422-437 | A store submits its lists by increasing VID |
| Survivors.SubmissionExample | src/topicmap.c:459-466 | With two properties the one loaded last submits first: a concrete case with the resulting set and the topic that stays |
| Survivors.SubmissionsClean | stores/memstore/propertystore.c:436-437 | What is submitted are arrays of two topics at least, without repetitions |
| DroppedValues.DroppingLosesAnIdentity | src/topicmap.c:623-628 | For any two identifying properties of which one holds topics, facts whose merge ends settled without merging two topics that every closed labelling identifies, although the values of topics forced together are equal up to every closed labelling, the case for which the source proceeds |
| DroppedValues.DroppingMayBeHarmless | src/topicmap.c:608-635 | For any two such properties, facts where a pass drops a value that it then makes equal to the one kept, and merging computes the closure |
| TopicMaps.TopicMap.FullyMerge | src/topicmap.c:450-553 | On success the rounds gone through are a run from the old facts to the new ones, no pass of which contradicted; no two topics share an identifying value; exactly the replaced topics are disposed; the run is the congruence closure of the old facts if and only if no lost value is shared, and always when the kinds of the properties rule that out; there was at most one round more than live topics, and every one but the last merged something. The merge sets of each round are those that the topic lists of the stores lead to, whose first topics stay. It fails exactly in the pass whose merge sets contradict or make roles or members coincide, never on locators alone; the 200-round guard cannot fire below 200 live topics, nor where identifying values hold no topics |
| TopicMaps.TopicMap.MergeRound | src/topicmap.c:455-541 | One pass of the loop is a round on the facts, whose merge sets are the fusion of the topic lists as the stores had them, in the order of submission; it disposes what it replaced, all but the first of each set, and leaves all stores normalized when it built no merge set; contradiction and abort are decided by the merge sets, both ways |
| TopicMaps.TopicMap.NormalizeAll | src/topicmap.c:459-466 | All identifying stores end with one topic for each value, the merge lists allow exactly the labellings that respect shared values in every identifying property, and they are the fusion of the topic lists that the stores held, the store loaded last first |
| TopicMaps.TopicMap.ReplaceKeys | src/topicmap.c:469-496 | Every property's facts become the old ones with the keys of all merge sets replaced; contradicts if and only if topics of one set have different texts; the stores are still all normalized if and only if no identifying one had to insert a topic anew |
| TopicMaps.MovedValueRekeys | src/topicmap.c:494-496 | A concrete case where they are not: the topic that stays has no value and the one that disappears has one |
| TopicMaps.TopicMap.AddLocators | src/topicmap.c:931-990 | Adding locators to a topic is Put on the facts of the property and leaves everything else alone; a topic without a value before comes last in the list of its value; no disposed topic comes back |
| TopicMaps.TopicMap.AddValue | src/topicmap.c:931-990 | Adding another value stores a first one and never changes one; says when it contradicts or aborts |
| TopicMaps.TopicMap.AddAllLocators | src/topicmap.c:931-990 | A sequence of additions to an empty property leaves the facts of the sequence of puts, and the topic added last comes last in its list |
| MergedPuts.MergeLocators | src/topicmap.c:450-553 | The whole way: on a new map, after any sequence of additions, a full merge always succeeds; two topics are one if and only if they are connected by shared locators; the topic that stays has exactly the locators of its component and is the first that the store listed, so the topic added last stays only if it is alone |
| MergedPuts.ForcedIffConnected | src/topicmap.c:1079-1407 | The facts that puts leave force two topics together if and only if shared locators connect them |
| MergedPuts.ValueOfClass | src/topicmap.c:636-665 | After the merge a representative has exactly the value that the puts left each topic it stands for |
| MergedPuts.NewestGoes | stores/memstore/propertystore.c:436-447 | The topic that was given locators last, and none before, stays if and only if nothing is connected to it |
| TopicMaps.TopicMap.ReplaceValues | src/topicmap.c:498-523 | Every property's facts become the images under all merge sets; aborts if and only if a replacement makes roles or members coincide |
| TopicMaps.TopicMap.DisposeAll | src/topicmap.c:525-538 | Disposes of exactly the topics that the merge sets replace; no assertion of the disposal fails |
| TopicMaps.TopicMap.Dispose | src/topicmap.c:108-153 | Marks the topic disposed; its assertions hold: not disposed before, no store has it, no value includes it |
| TopicMaps.TopicMap.AllNormalized | src/topicmap.c:2886-2898 | True exactly when every store reports itself normalized |
| TopicMaps.ToDispose | src/topicmap.c:114-147 | The topics due for disposal were live, so none is disposed twice, and disposed topics stay out of the map |
| Facts.ReplaceSetsClosed | src/topicmap.c:557-670 | Replacing keys by merge sets that a closed labelling identifies keeps the labelling closed |
| Facts.ReplaceSetsCarries | src/topicmap.c:636-665 | Replacing keys loses no locator of any topic of a combining property |
| Facts.ReplaceSetsKeepsValue | src/topicmap.c:575-607 | Where the values of a topic's merge set agree, its representative has its value |
| Facts.ReplaceSetsHas | src/topicmap.c:575-607 | A topic with a value leaves a representative with a value, whatever is dropped or combined |
| Facts.ReplaceSetsKey | src/topicmap.c:557-670 | Every key after replacement is the representative of an old key |
| Facts.ImagesSetsAt | src/topicmap.c:672-776 | Replacing the topics in values set by set is one simultaneous substitution by representatives |
| Facts.ImagesClosed | src/topicmap.c:672-776 | Replacement inside values keeps every labelling closed that does not see it |
| Facts.AbsorbId | src/topicmap.c:1180-1407 | Storing with absorption keeps values equal or disjoint |
| Components.ComponentsOfPuts | src/topicmap.c:1079-1407 | After any sequence of puts two topics share a value if and only if a path of shared locators connects them, and a value is exactly what was put for the connected topics |
| Components.PutOrderIrrelevant | src/topicmap.c:1079-1407 | The resulting facts depend only on which locators were put for which topic, not on order or grouping of the calls |
| Components.PutIs | src/topicmap.c:1079-1174 | One put: the topic keeps what it had, gets the new locators, and shares the union with exactly the topics whose values meet it |
| MergeSets.MergeLists.Add | src/topicmap.c:2425-2492 | Sets stay disjoint and duplicate-free, the labellings they allow are exactly those allowed before that identify the array, and the order of sets and topics is that of the repaired loop |
| MergeSets.Meaning | src/topicmap.c:2425-2492 | Fusing the set of an array's topics into disjoint sets keeps them disjoint, keeps all topics, and adds exactly the array's constraint |
| MergeSets.StaysAfter | src/topicmap.c:2425-2492 | Which topic stays after one call: the first topic of the last set that the array meets, the array's own first topic only if it meets none; all other sets are as they were |
| MergeSets.MergeSetsAreClasses | src/topicmap.c:2425-2492 | After any sequence of arrays two topics are in one merge set if and only if every labelling that is constant on each array identifies them |
| MergeSets.SubmissionOrderIrrelevant | src/topicmap.c:2425-2492 | Any two sequences of the same arrays, permuted or repeated, lead to the same classes |
| MergeSets.SameLabellingsSameClasses | src/topicmap.c:2425-2492 | Disjoint merge sets that allow the same labellings have the same classes |
| TopicSets.Disjoint | src/topicset.c:128-139 | True exactly when no topic is in both |
| AddMergeListAsWritten.AddAsWritten | src/topicmap.c:2425-2492 | The loops as they stand, for any array: the set of its topics, then Scan, with the failed assertion and the use of freed memory as outcomes |
| AddMergeListAsWritten.AddMergeListExactly | src/topicmap.c:2425-2492 | As written, for any array, the call builds the intended sets if and only if, the array repeating no topic, it misses the first of several sets and its elements are carried over all sets it absorbs, or, the array repeating a topic, it misses all sets |
| AddMergeListAsWritten.WrittenAgreesWithRepaired | src/topicmap.c:2425-2492 | Where the loop as written builds what is intended, its sets are disjoint and their classes are those of the repaired loop |
| AddMergeListAsWritten.WrittenStaysAsRepaired | src/topicmap.c:2451-2455 | And the same topic stays: the set it builds begins with the same topic, and all other sets are as they were |
| AddMergeListAsWritten.OneOverlapSame | src/topicmap.c:2451-2460 | Where at most one list overlaps, both build the very same sets, the same topics in the same order |
| AddMergeListAsWritten.RepeatedTopicFails | src/topicmap.c:2451-2452 | A concrete array with a topic twice for which the copy loop reads beyond the set |
| MergingAsWritten.SequenceExactly | src/topicmap.c:2425-2492 | A sequence of calls as written does, call by call, what is intended if and only if each array meets the condition of AddMergeListExactly on the sets that the calls before it left |
| MergingAsWritten.HandledEndsRepaired | src/topicmap.c:2425-2492 | Such a sequence ends with disjoint sets that have the classes of the repaired loop |
| MergingAsWritten.HandledStaysAsRepaired | src/topicmap.c:459-466 | Every topic has the same representative after the calls of such a pass as after those of the repaired loop |
| MergingAsWritten.DisjointHandled | src/topicmap.c:2425-2492 | Disjoint arrays, as one property submits them, are always handled |
| MergingAsWritten.HeadOverlapFails | src/topicmap.c:2457-2471 | Once there are several sets, an array that overlaps the first, where every call puts its set, ends the sequence in failure |
| MergingAsWritten.NormalizesAsWritten | src/topicmap.c:455-466 | A pass with the loop as written has right merge sets if and only if its calls end with the classes of the repaired loop |
| MergingAsWritten.WrittenRunIsRun | src/topicmap.c:450-553 | A merge with the loop as written, all of whose passes end so, is a run, so that every theorem about runs holds of it |
| MergingAsWritten.RunsAgree | src/topicmap.c:450-553 | Two settled merges of one topic map that lose no shared value, whatever the order of their merge sets and the topics they keep, merge the same topics |
| MergingAsWritten.WrittenMergeAgrees | src/topicmap.c:450-553 | So a merge with the loop as written merges the same topics as the repaired one, if its passes' submissions are handled and no shared value is lost |
| AddMergeListAsWritten.OneOverlapIsHandled | src/topicmap.c:2425-2492 | When at most one set overlaps, the call is right if and only if there is no overlap, or the set is not the first of several and the array repeats no topic |
| AddMergeListAsWritten.LosesATopic | src/topicmap.c:2451-2452 | A concrete call with two overlaps that loses a topic, because the copy loop stops at the array's length |
| AddMergeListAsWritten.FreesTheList | src/topicmap.c:2457-2471 | A concrete call that overlaps the head of two sets and frees both |
| AddMergeListAsWritten.ScanKeeps | src/topicmap.c:2436-2484 | Even as written, the call never identifies topics that the old sets and the array do not |
| TextSetStores.TextSetStore.FindSetVid | stores/memstore/textsetstore.c:507-547 | Looking up by the first element and comparing sizes decides whether an equal set is live |
| TextSetStores.TextSetStore.Create | stores/memstore/textsetstore.c:177-240 | A set of unknown locators is stored under the next VID; sets stay disjoint and the locator table exact |
| TextSetStores.TextSetStore.DeleteValue | stores/memstore/textsetstore.c:271-303 | Removes the set and exactly its locators from the table |
| TextSetStores.TextSetStore.GetValue | stores/memstore/textsetstore.c:246-270 | The list of the locators of the set, last stored first |
| TextSetStores.TextSetStore.ScanNotDisjoint | stores/memstore/textsetstore.c:367-505 | The scan yields exactly the sets that overlap the argument, once each, those of later locators first |
| TextSetStores.TextSetStore.Advance | stores/memstore/textsetstore.c:448-505 | The cursor moves to the first known locator and skips only unknown ones |
| TextSetStores.TextSetStore.SetsDisjoint | stores/memstore/textsetstore.c:157-303 | Different live sets share no locator and none is empty |
| TextSetStores.TextSetStore.KnownLocators | stores/memstore/textsetstore.c:157-303 | The locator table maps each locator to the one live set that holds it, and has no others |
| PlainStores.PlainStore.FindValue | stores/memstore/topicsetstore.c:246-268 | The linear search finds a VID exactly when an equal value is live |
| PlainStores.PlainStore.LookupOrCreate | stores/memstore/topicsetstore.c:129-178 | An equal live value is found, otherwise the value goes under the next VID; values stay distinct |
| PlainStores.PlainStore.DeleteValue | stores/memstore/topicsetstore.c:192-208 | The value, and nothing else, is gone |
| PlainStores.PlainStore.NextMeeting | stores/memstore/slow_asidp.c:408-438 | The cursor yields the next live VID whose value meets the condition and passes over none |
| PlainStores.PlainStore.Collect | stores/memstore/topicsetstore.c:271-343 | A whole scan yields exactly the live values that meet the condition, pushed by increasing VID |
| PlainStores.SameRun | stores/memstore/slow_asidp.c:408-438 | Contents and answers of a store that serves a sequence of requests are determined by the requests |
| AsidpRefinement.Serve | stores/memstore/asidp.c:178-286 | One request to the indexed and the linear store, holding the same values: the same answer, and they hold the same values again |
| AsidpRefinement.ServeAll | stores/memstore/asidp.c:178-286 | Any sequence of stores and deletions is served, in order, all but deletions of VIDs that are not live; both stores give the same answers and go through the same contents |
| AsidpRefinement.SameSift | stores/memstore/asidp.c:172-240 | The requests determine which of them are served, all answers, and what the store holds in between |
| AsidpRefinement.StoresServed | stores/memstore/asidp.c:198-215 | Without deletions every request is served |
| AsidpRefinement.StorableIff | stores/memstore/asidp.c:293 | The indexed store can be asked to hold exactly the canonical ASIDPs that the property store does not refuse |
| AsidpRefinement.Scan | stores/memstore/slow_asidp.c:408-438 | At any point of such a run the scan by the topic index yields, without repeats, the VIDs that the linear scan yields |
| AsidpArrays.ArrayThenValue | stores/memstore/asidp.c:447-491 | A value survives conversion to its array and back, and the array is well formed exactly when the roles are strictly sorted |
| AsidpArrays.ValueThenArray | stores/memstore/asidp.c:447-491 | An array survives conversion to its value and back, so equal values have identical arrays |
| AsidpArrays.MakeArray | stores/memstore/asidp.c:447-471 | The loop builds the canonical array, and its order assertion holds |
| AsidpArrays.ValueFromArray | stores/memstore/asidp.c:472-491 | The loop rebuilds the value of the array |
| AsidpArrays.FieldsAreTopics | stores/memstore/asidp.c:288-300 | The fields other than the length are exactly the topics of the value |
| AsidpArrays.MeetsFields | stores/memstore/asidp.c:543-552 | The conditions of the scans on the fields that the code compares: type in the first, role and player side by side from the third on, any topic field for inclusion |
| AsidpArrays.IndexableFields | stores/memstore/asidp.c:293 | What can be indexed has an array of at least the six fields that are asserted |
| AsidpIndex.AddToBucket | stores/memstore/asidp.c:322-366 | One occurrence more and the VID present; a table from the threshold on and for good; list and table never both |
| AsidpIndex.RemoveFromBucketIs | stores/memstore/asidp.c:384-394 | One occurrence fewer and the VID absent, in list and table form |
| AsidpIndex.AddEntry | stores/memstore/asidp.c:294-368 | Updating one bucket adds exactly one occurrence and one topic-in-value pair to the index |
| AsidpIndex.OccurrencesCovered | stores/memstore/asidp.c:355 | Whatever topic occurs is in some live value, so the list is not empty when the table replaces it |
| AsidpStores.AsidpStore.LookupVid | stores/memstore/asidp.c:178-216 | Lookup finds a VID exactly when an equal value is live; creation answers as the linear store does; index, hash table and slots stay consistent |
| AsidpStores.AsidpStore.FindValue | stores/memstore/asidp.c:399-425 | The hash lookup finds a VID exactly when an equal value is live |
| AsidpStores.AsidpStore.DeleteValue | stores/memstore/asidp.c:230-252 | Removes the value from slots, hash table and index; its assertions hold; contents change as in the linear store |
| AsidpStores.AsidpStore.GetValue | stores/memstore/asidp.c:217-229 | Returns the live value, memberships strictly sorted |
| AsidpStores.AsidpStore.GrowCore | stores/memstore/asidp.c:198-208 | Doubling the core array keeps all values and makes room for the next VID |
| AsidpStores.AsidpStore.GrowTopicIndex | stores/memstore/asidp.c:304-318 | Doubling the topic index until the topic fits changes no bucket |
| AsidpStores.AsidpStore.InsertIntoIndexes | stores/memstore/asidp.c:288-370 | Every bucket's len rises by the occurrences of its topic in the array, and the VID is in exactly the buckets of its topics |
| AsidpStores.AsidpStore.RemoveFromIndexes | stores/memstore/asidp.c:371-397 | The reverse, also when a topic occurs several times in the value |
| AsidpStores.AsidpStore.ScanIncluding | stores/memstore/asidp.c:562-612 | The index yields, without repeats, exactly the VIDs that the linear scan yields |
| AsidpStores.AsidpStore.NextMeeting | stores/memstore/asidp.c:635-690 | The HAS_TYPE and HAS_PLAYER_PAIR cursors yield the next matching live VID and pass over none |
| AsidpStores.HashFinds | stores/memstore/asidp.c:399-425 | The array of a value is in the hash table exactly when an equal value is live |
| AsidpStores.IndexFinds | stores/memstore/slow_asidp.c:408-438 | A VID is recorded under a topic exactly when its live value includes the topic |
| Values.AddOrderIrrelevant | src/asidp.c:187-251 | Memberships with distinct roles give one list in whatever order they are added |
| Values.StrictUnique | stores/memstore/asidp.c:22-26 | A strictly sorted membership list is determined by its memberships |
| Values.StrictIffApart | stores/memstore/asidp.c:466 | Re-sorted memberships are strictly sorted exactly when no two roles were made equal |
| Values.ImageCompose | src/asidp.c:252-305 | Two replacements in a row are one simultaneous replacement, as long as neither makes roles or members coincide |
| Values.ImageTopics | src/asidp.c:252-305 | The topics of a replaced value are the images of its topics |
| Values.PairsMet | stores/memstore/slow_asidp.c:385-395 | An ASIDP built from memberships meets HAS_PLAYER_PAIR for exactly the role and player pairs that were added |
| Values.AddedPairMet | src/asidp.c:140-186 | Adding a membership makes it meet that pair and no other new one |
| Values.SecondMembership | stores/memstore/asidp.c:293 | It can be stored from the second membership on |
| Values.CollidesIffSmaller | src/vt_topicset.c:147 | Replacement in a TopicSet collides exactly when the set gets smaller |
| ValueOps.ReplaceInAsidp | src/asidp.c:252-305 | The topic-by-topic loops equal one simultaneous substitution and re-sorting, and report a change exactly when a disappearing topic was there |
| ValueOps.ReplaceInTopicSet | src/vt_topicset.c:127-158 | The same for sets of topics; fails exactly when two members would coincide |
| ValueOps.ReplaceInValue | src/topicmap.c:740-750 | Replacement in any value: fails exactly on a collision, otherwise yields the canonical image, and reports changes exactly |
| ValueOps.AddMembership | src/asidp.c:140-186 | The list search inserts before the first larger role |
| ValueOps.Union | src/textset.c:255-282 | The locators of both sets, each once, in the order that pushing leaves |
| ValueOps.SetEqual | src/textset.c:191-238 | Inclusion both ways decides equality |
| PropertyStores.PropertyStore.Insert | stores/memstore/propertystore.c:145-189 | The topic joins the VID's list, the maps stay inverse, and the store is no longer normalized |
| PropertyStores.PropertyStore.Remove | stores/memstore/propertystore.c:190-252 | The topic leaves its list, the order of the others stays, and its value is deleted with its last topic |
| PropertyStores.PropertyStore.Normalize | stores/memstore/propertystore.c:408-461 | Keeps the first topic of every value's list and no other, and submits exactly the lists of several topics, each in its own order, as merge lists, which are disjoint |
| PropertyStores.PropertyStore.Vput | src/topicmap.c:1180-1407 | One value takes the place of all that overlap, all their topics move to it in the order in which they were collected, and values stay disjoint |
| PropertyStores.PropertyStore.Drain | src/topicmap.c:1297-1370 | Collects exactly the topics of the overlapping values, in the order that pushing leaves, removes them with the values, and combines all locators |
| PropertyStores.PropertyStore.VputInsert | src/topicmap.c:1134-1174 | With the insert that follows, the facts become those of absorption |
| PropertyStores.PropertyStore.PutSet | src/topicmap.c:1079-1174 | A put on a combining property is Put on the facts, whether the topic had a value or not; unless nothing changes the topic comes last in the list of its value |
| PropertyStores.PropertyStore.PutPlain | src/topicmap.c:1079-1174 | A put on another property stores a first value and never changes one; says when it contradicts, and when it aborts: on a second ASIDP of a topic, or one with fewer than two memberships |
| PropertyStores.FitsIff | src/topicmap.c:2711-2738 | The scans are defined for exactly the value types of which some value meets the condition |
| PropertyStores.PropertyStore.ReplaceTopic | src/topicmap.c:575-665 | Replacement of one key in all its cases; contradicts exactly where both topics have different texts; the store stays normalized exactly if no topic is inserted anew |
| PropertyStores.PropertyStore.ReplaceTopics | src/topicmap.c:557-670 | Replacement of all keys of a merge set; contradicts exactly when texts of the set differ |
| PropertyStores.PropertyStore.ReplaceInValues | src/topicmap.c:672-776 | The facts become their images; aborts exactly when some value's roles or members would coincide; in the list of a value come first the topics that had it before, in their order, then those whose value became equal to it, in the order of processing |
| PropertyStores.PropertyStore.TopicsMeeting | src/topicmap.c:2724-2738 | The topics of the scanned values: exactly those whose stored value meets the condition, each once |
| Tables.FusedIsAbsorb | src/topicmap.c:1180-1407 | Fusing overlapping values and moving their topics, on the tables, is absorption on the facts |
| VidArrays.AppendTo | stores/memstore/propertystore.c:465-496 | A topic array, new or full, is allocated or doubled and gets the topic at its end |
| VidArrays.TakeOut | stores/memstore/propertystore.c:223-236 | Shifting takes exactly one topic out of the list |
| VidArrays.VidArrays.Insert | stores/memstore/propertystore.c:145-189 | On growing arrays, insertion is Append on the map of topic lists |
| VidArrays.VidArrays.Remove | stores/memstore/propertystore.c:190-252 | On arrays, removal is Drop on the map of topic lists |
| VidArrays.VidArrays.KeepFirst | stores/memstore/propertystore.c:452-455 | On arrays, shrinking leaves the first topic (with the pointer stored back) |
| TopicSets.TopicSet.Add | src/topicset.c:68-88 | Appends unless present, over the growth of the array |
| TopicSets.TopicSet.Remove | src/topicset.c:89-111 | Takes the topic out and keeps the order of the others |
| TopicSets.TopicSet.IsEqual | src/topicset.c:140-155 | Size and one-way inclusion decide equality |
| Queries.Eval | src/topicmap.c:2672-2747 | For every AND/OR tree, exactly the topics whose stored values satisfy it, each once; the map is unchanged |
| Queries.Between | src/topicmap.c:2672-2747 | AND narrows and OR widens the result |
| Queries.Common | src/topicmap.c:2687-2703 | The AND loop yields the topics of both results |
| PageCache.PageFile.FetchPage | stores/filestore/storage.c:244-331 | The caller gets the page as last written, pinned; a pinned page is never evicted; fails exactly when the page is not cached and all slots are in use |
| PageCache.PageFile.DropPage | stores/filestore/storage.c:334-360 | One use fewer; unlocked with the last; contents unchanged |
| PageCache.PageFile.ModifyPage | stores/filestore/page.c:64-69 | A write through a pinned page changes the contents of that page only |
| PageCache.PageFile.NewPage | stores/filestore/storage.c:210-239 | Appends one page with the next number |
| PageCache.PageFile.Flush | stores/filestore/storage.c:190-207 | Afterwards the file has the contents of every page and no slot is marked changed |
| PageCache.PageFile.WritePage | stores/filestore/storage.c:400-427 | The slot's page goes to its place in the file with the flag cleared; contents unchanged |
| PageCache.HoldsOne | stores/filestore/storage.c:254-272 | Slots and file determine the contents, so these are not a free choice of the model |
| PageCache.WriteBack | stores/filestore/storage.c:315-318 | Writing a slot back keeps contents, and unmarked slots equal to the file |
| PageCache.ReadInto | stores/filestore/storage.c:320-322 | Reading into an unmarked or empty slot keeps contents and puts no page in two slots |
| Pages.IntRead | stores/filestore/page.c:45-63 | An int stored in page bytes is read back, and no other byte changes |
| LptPages.LptPage.RawInsert | stores/filestore/lptpage.c:419-500 | Adds exactly one leaf under its first character, or the skip topics; fails exactly when the page lacks room; all other buckets read as before |
| LptPages.LptPage.GetBucket | stores/filestore/lptpage.c:338-379 | Reads what was last written for the key |
| LptPages.LptPage.ClearBucket | stores/filestore/lptpage.c:243-263 | Empties one bucket and its leaf; all other buckets read as before |
| LptPages.LptPage.SetChild | stores/filestore/lptpage.c:305-333 | One bucket refers to a page; all other buckets read as before |
| LptPages.LptPage.SetLeafTopic | stores/filestore/lptpage.c:265-302 | One topic of one leaf changes in place |
| LptPages.LptPage.SetSkip | stores/filestore/lptpage.c:226-237 | The skip string changes and nothing else |
| LptPages.LptPage.SetParent | stores/filestore/lptpage.c:122-155 | Parent page and key change and nothing else |
| LptPages.Inserted | stores/filestore/lptpage.c:480-499 | The bytes written by an insertion keep leaves disjoint and below the free start, and add one bucket |
| LptPages.Rewritten | stores/filestore/lptpage.c:243-333 | Whatever is written in one bucket and its leaf leaves every other bucket readable as before |
| BtreePages.BtreeLeaf.CreateEntry | stores/filestore/btreepage.c:425-478 | The record goes after the last smaller key and everything from there one place up, inside the page |
| BtreePages.BtreeLeaf.FindEntry | stores/filestore/btreepage.c:388-414 | Finds the first record with the key exactly when there is one |
| BtreePages.BtreeLeaf.UpdateEntry | stores/filestore/btreepage.c:480-495 | One record changes |
| BtreePages.PlacedInOrder | stores/filestore/btreepage.c:456-467 | Insertion of a new key at that place keeps keys strictly increasing |
| BtreePages.BtreeLeaf.CopyRemaining | stores/filestore/btreepage.c:497-520 | As written: copies the upper records and counts one too many |
| BtreePages.SplitNeverOrdered | stores/filestore/btreepage.c:507-517 | On every input the split page ends with an empty record, so its keys are never in order |
| BtreePages.BtreeNode.InsertEntry | stores/filestore/btreepage.c:319-367 | Key and page go right after the last pointer to the given page, inside the page |
| BtreePages.KeyInOrder | stores/filestore/btreepage.c:355-362 | A key between its neighbours keeps the keys increasing |
| RoleCollapse.TopicAssertion.CollapseRoles | www-df/xtm_simple.c:881-923 | The in-place loop leaves strictly increasing roles, one membership for each role, each with the only player or the topic of exactly that role's players; it ends with an error if and only if such a topic cannot be added |
| RoleCollapse.TopicAssertion.TakeOut | www-df/xtm_simple.c:900-905 | The shift takes exactly one membership out |
| RoleCollapse.CollapsedPermuted | www-df/xtm_simple.c:880 | What the collapse must yield does not depend on the order qsort leaves |
| RoleCollapse.CollapsedUnique | www-df/xtm_simple.c:881-923 | That outcome is unique |
| RoleCollapse.StrictStays | www-df/xtm_simple.c:881-923 | Without repeated roles nothing is collapsed, so a second collapse changes nothing |
| RoleCollapse.CollapseExample | www-df/xtm_simple.c:881-923 | A concrete case: two players of one role become the topic of the set of both |
| Traversal.Omnivore.FeedDocument | src/omnivore.c:735-998 | For every element tree within the limits, the calls made are the traversal of the pruned tree, and depth, ignore depth and element index are back where they were; it fails exactly when an ignored document element has character data of its own |
| Traversal.Omnivore.Start | src/omnivore.c:735-945 | Start event in its three modes: inside an ignored element, at one, and at an element that is kept |
| Traversal.Omnivore.End | src/omnivore.c:949-998 | End event in its modes; the kept element is delivered with its own address and text |
| Traversal.Omnivore.CharData | src/omnivore.c:999-1032 | Data is dropped below an ignored element's children, but not directly inside the ignored element |
| Traversal.Omnivore.AddressOf | src/omnivore.c:836-870 | The address rebuilt from names and counts is that of the innermost open element |
| Traversal.Increment | src/omnivore.c:1226-1250 | Counts one more child of that name and nothing else |
| Trees.ShapesAgree | src/omnivore.c:752-784 | The start and end calls and their addresses are those of the tree with the ignored elements removed entirely |
| Trees.StrippedIffNoLeak | src/omnivore.c:1008-1013 | All calls, texts included, are those of that tree if and only if no element whose text is wanted has an ignored child with character data of its own |
| Trees.LeakExample | src/omnivore.c:1008-1013 | A concrete document where the text of an ignored element is delivered as the text of the element around it |

## Left out

- Files, sockets, expat, raptor and the command-line tools: a file is a sequence of pages, and the parser's events come from a tree.
- Memory management: freeing, reallocation and pointer casts, except where freed memory is used (add_mergelist as written).
- Integer widths: IDs, counts and sizes are unbounded, except in page bytes, where they are 32-bit.
- src/table.c and src/list.c: hash tables are maps, lists are sequences; the order in which a table lists its keys is arbitrary.
- Models and their files: which properties exist, their equality and combination codes. A property either has NOT_DISJOINT equality with union (TextSets) or neither (Text, ASIDP, TopicSet); no other combination of codes is modelled.
- Text and Integer value stores: Text properties use the linear store; the Integer store's scans are not implemented in the source.
- TopicMaps.TopicMap.AddValue: a topic that merging has disposed of must not be used again, as key or inside a value, which the source does not check.
- tm_topicmap_add_subject, lookups by subject, transactions, views, printing, XML export and the query language parser.
- The limits DISPOSE_SIZE, MAXURI, MAXDATA, and the size of name and path buffers; MAXITEMS, MAX_CHILDS and TM_MAXMEMBERS are preconditions or sizes.
- TopicMaps.TopicMap.ReplaceValues: the order of the topic lists is stated for the replacement of one merge set in one property (ReplaceInValues) and not composed over the merge sets of a pass; FullyMerge returns the lists that each pass found.
- PropertyStores.PropertyStore.Insert: topic lists are a map of sequences there; VidArrays proves that the growing arrays implement that map, but the two classes are not composed.
- PropertyStores.PropertyStore.LookupOrCreate: ASIDP properties use the linear store; AsidpRefinement proves that the indexed store gives the same answers, but the property store is not instantiated with it; the index may yield the VIDs of a scan in another order.
- VidArrays.VidArrays.KeepFirst: stores the shrunk array back, which the source does not; that differs only if reallocation moves the array.
- MergeSets.MergeLists.Add: the sets are sequences; TopicSets proves that the growing arrays implement the operations on them, but the two classes are not composed.
- AsidpStores.AsidpStore.ScanIncluding: the scan is taken as a whole; a scan kept open over changes to the store is not modelled.
- RoleCollapse.TopicAssertion.CollapseRoles: the topic of a set of players comes from a function parameter that may refuse; that the map gets the topic is not modelled; qsort is taken to leave some sorted order, which is a precondition.
- PageCache.PageFile.FetchPage: a page pointer is a slot index, a client's writes set the changed flag as all page modules do, and input and output errors do not occur. gs_storage_open_file on a new file and gs_storage_close_file are not modelled.
- Traversal.Omnivore.Start: attributes, id and reference URIs and namespaces are not modelled, so the address is always the xpointer form; errors set by a processing model, after which all events are ignored, are not modelled. The line parser is left out.
- LptPages.LptPage.SetLeafTopic: takes the bucket as it is on the page; a bucket read earlier and since replaced is not modelled.
- BtreePages: head pages, data pages and the descent through the tree.
- stores/filestore/tmfile.c, whose eviction test selects pages in use (line 294); storage.c is modelled instead.
- www-df/OLD_XTM_SIMPLE.c, www-df/xtm_simple_NO_SOURCELOCATORS.c, src/stmql.c: superseded or not built.
