# pvData: offsets, masks, mapper, wire format, timer, interning, parsers

A Dafny model of the parts of EPICS pvData in which several pieces of code have to agree on what
a number, a bit or a byte means, with proofs that they do.

The central object is the tree of fields. Every field of a structure has an *offset*, its place in
a preorder numbering, and a *mask* is a set of offsets in which the bit of a structure stands for
all of its subfields. `Fields` defines the tree, its numbering and its paths; everything that
follows is stated in those terms.

| files | what they model |
|---|---|
| `Fields`, `Values`, `Names` | types, offsets, paths, dotted full names, values |
| `PVTree`, `Parents`, `Lookup` | the instance tree on the heap, the computation of offsets, the way up by parent pointers, lookup by offset and by name |
| `Words`, `Counting`, `BitSets` | 64-bit words, parallel bit counting, the packed bit set as a set of numbers |
| `Compress`, `CompressLaws` | the rewriting of a mask to a shorter one with the same meaning |
| `Limits`, `MaskedCopy` | the lengths that a copy refuses; copying under a mask and under its inverse |
| `Selection`, `SelectionLaws`, `MapperTables`, `MapperCopy`, `RequestMapper`, `MapperLaws` | the request mapper: what a client's selection means, the two offset tables, copying and translating masks both ways, lens laws |
| `Wire`, `TypeCodec`, `ValueCodec`, `ValueLaws` | sizes, strings, introspection data and values as bytes, and their round trips (EPICS pvAccess Protocol Specification, chapter "Data Encoding") |
| `WireForms`, `BitSetForms` | what the bytes are, beyond that they can be read back: order, codes, markers, defaults, and how few of them there are |
| `Sink`, `Source` | writing through a bounded buffer that is flushed, reading from a buffer that is filled piece by piece |
| `BitSetWire`, `MaskedWire` | bit sets on the wire, structures sent and received under a mask |
| `Unions`, `StructureArrays` | the state of a union, compressing and shortening a structure array in place |
| `TimerQueue`, `TimerRuns`, `TimerLaws`, `Timer` | the timer as a system of atomic steps, its invariant and its laws over whole runs; the class whose methods are those steps |
| `Interning` | the cache of types under every interleaving of creation, release and late cleanup |
| `Requests`, `RequestLaws`, `RequestParser`, `RequestTypes` | the request language, its parser, and the names under which options are stored |
| `Json`, `JsonContext`, `JsonLaws`, `JsonMask`, `JsonRoundTrip` | the JSON event printer and the stack machine that reads the same events |

Code that changes objects is written as classes and methods. Such a method is proved against a
function of the old state, and the laws are proved about that function. The instance tree is a
datatype of references to `PVField` objects, so that updates in place, sharing and frames are
part of what is proved about copying, numbering and receiving.

## What the proofs found

Places where the code does not do what one would expect, with the exact condition and, in most, an
input.

* The result of a nested selection is not used: a badly composed field is refused at the top level of
  a request, but below it only leaves a message, so that the rest is computed
  (src/copy/requestmapper.cpp:153-222; `Selection.Compute`, `Selection.NestedNotChecked`).
* Copying checks lengths and selectors of unions, and receiving does not. A copy goes through exactly if
  every leaf that it covers fits (`MaskedCopy.AcceptedIff`); sending and receiving is the same as copying
  exactly then (`MaskedWire.SendIsCopyIffFits`), and a bounded string that is too long can be sent and
  received but not copied (`MaskedWire.SentButNotCopied`). A fixed array is created empty, so that a
  new structure that has one cannot be copied (`MaskedCopy.NewInstanceRefused`).
* The inverse copy copies what the complemented mask stands for. That is the complement of what
  the plain copy copies exactly if no leaf has both a set and a clear bit among its own and those
  of the structures around it (`MaskedCopy.InverseIsComplement`, `MaskedCopy.BothCopyLeaf`).
* Cancelling a callback leaves it unscheduled unless the callback is being processed and has
  already put itself back into the queue (`TimerLaws.CancelIdles`, `TimerLaws.CancelledYetQueued`).
* After a callback the worker computes its wait from an old clock reading. It then sleeps too long
  by the time that the callback took (`TimerLaws.WakesLateBy`, `TimerLaws.SlowCallbackDelaysNext`).
* The cache gives back a type that differs from the one asked for unless the hash tells apart all
  arrays of one element type and all strings, whatever their bounds
  (`Interning.CreateIsRightIffSeparates`). Strings matter because decoding compares them by scalar
  type only (`Interning.DecodedTextConfused`), where creating them compares the bounds and cannot go
  wrong (`Interning.CreatedTextIsRight`).
* A union stores a selector before it looks the member up. A selector of no member, which `at` refuses
  (src/pv/pvIntrospect.h:944), therefore stays behind with the old value; that is the only way in which
  a read breaks the union (`Unions.PVUnion.Deserialize`, `Unions.UnknownSelector`). Such a union cannot be
  copied (`MaskedCopy.UnknownSelectorRefused`), except to one that holds the same selector, where the copy
  goes on between the values that the two happen to hold (`Unions.PVUnion.CopyUnchecked`).
* An option in the request language is recorded under the name of the field it belongs to if and
  only if the name ends at its brackets (`RequestTypes.OptionsPlacedIffTidy`). `a[x=1]b` fails this: it
  passes the parser of fields, and the request is then refused at src/copy/createRequest.cpp:446,
  because the option is recorded under a name that does not exist (`RequestTypes.MisplacedBrackets`).
  That check never fires exactly if every option is recorded under a name that is due to some option
  (`RequestTypes.OptionsResolveIffMatched`), so `a[x=1]b,a[x=2]` is accepted, and both options are
  stored in the place of the second (`RequestTypes.StrayIsMatched`).
* A comma at the end of a request is refused if the last field has no subfields and makes no
  difference if it has some (`RequestLaws.TrailingComma`).
* A bit set whose bytes are missing has been resized already when the error is raised. It keeps its
  invariant exactly if it was cut at a word that is not zero, or to nothing
  (`BitSetWire.Deserialize`, `BitSetWire.MissingBytes`); the null size is read as the empty set.
* Not everything that is printed as JSON can be read back. The length of an array is checked after every
  element, so that a fixed array is read back exactly if its length is at most one
  (`JsonRoundTrip.FixedArrayReadBack`, `JsonRoundTrip.FixedPairRefused`). Texts and arrays beyond their bound
  (`JsonLaws.LongTextRefused`) and null elements are refused too. These are all the cases: a new instance
  accepts what was printed under a mask exactly if every leaf that the mask stands for is free of them
  (`JsonRoundTrip.JsonRoundTrip`).
* JSON array elements are appended to what the destination holds: a destination ends up with the printed
  value exactly if that can be read back and all arrays of the destination are empty
  (`JsonRoundTrip.UsedDestination`).

A request that names more than six levels is not followed further: everything below the sixth name is
selected (`SelectionLaws.SelectedIffNamed`, `SelectionLaws.SelectedBelowSix`).

The deepest results are `CompressLaws.CompressIsCanonical` and `CompressLaws.CompressUsesFewestBits`,
`SelectionLaws.SelectedIffNamed`, `MapperCopy.MapFields` with the laws in `MapperLaws` about putting and getting, `ValueLaws.ValueRoundTrip`
with `Source.ReceiveValue`, `TimerLaws.NoLostWakeup`, `TimerLaws.EveryInsertionAccounted`,
`TimerLaws.RunsAtMostOnce`, `TimerLaws.PeriodicStays` and `TimerLaws.NotBeforeDelay`, `Interning.InterningIsSound`, `RequestParser.CreateRequestImpl.CreateSubNode`
with `RequestTypes.OptionsResolveIffMatched`, and `JsonRoundTrip.JsonRoundTrip`. Rows below that begin
with "step:" are short facts on the way to them.

## Model

| member | source | states |
|---|---|---|
| `Fields.Subtree` | src/factory/PVField.cpp:108-180 | the offsets of a subtree are consecutive: the field `j` places after field `k` is the `j`-th field below `k`, and its path extends that of `k` |
| `Fields.FindPath` | src/factory/PVStructure.cpp:110-201 | following the path of a field from the top leads back to its offset |
| `Fields.PathFind` | src/factory/PVStructure.cpp:110-201 | what a path leads to has that path |
| `Fields.WithinIffPrefix` | src/factory/PVField.cpp:44-60 | an offset lies between the offset and the next offset of a field exactly if the path of that field is a prefix of its path |
| `PVTree.ComputeOffset` | src/factory/PVField.cpp:108-149 | every object below a structure gets its preorder number and the end of its subtree, and nothing else of it changes |
| `PVTree.ComputeSubOffset` | src/factory/PVField.cpp:151-180 | the same for a subtree that starts at a given number; the number after it is returned |
| `Parents.SetParents` | src/factory/PVStructure.cpp:27-44 | if every subfield hangs together, so does the structure: each field points to the field directly around it and has the last name of its path |
| `Parents.FindTop` | src/factory/PVField.cpp:109-120 | following the parents from any field ends at the top |
| `Parents.GetFullName` | src/factory/PVField.cpp:97-106 | the names collected on the way up are the full name, and nothing for the top |
| `Lookup.NumberFromTop` | src/factory/PVField.cpp:108-115 | from any field the parents lead to the top, and all fields of the instance are numbered from there with 0 |
| `Lookup.GetOffsets` | src/factory/PVField.cpp:44-60 | whichever field's getter runs first on a fresh tree, the whole tree is numbered from the top, and the getter returns the preorder index and the end of the subtree |
| `Lookup.GetSubFieldByOffset` | src/factory/PVStructure.cpp:75-108 | finds the unique node strictly inside the range of offsets and nothing outside it; the search never runs out of candidates |
| `Lookup.FindChild` | src/factory/PVStructure.cpp:150-162 | finds the first subfield of that name, or there is none |
| `Lookup.Separator` | src/factory/PVStructure.cpp:122-136 | the next name ends at the first dot or space |
| `Lookup.GetSubFieldByName` | src/factory/PVStructure.cpp:110-201 | the loop over a dotted name returns the object whose offset the names lead to, or nothing |
| `Names.FullNameFindsField` | src/factory/PVField.cpp:97-106 | looking up the full name of a field finds that field |
| `Names.FullNameInjective` | src/factory/PVField.cpp:97-106 | different fields have different full names |
| `Words.TrailingZeros` | src/misc/bitSet.cpp:140-151 | the binary search gives the position of the lowest set bit (Hacker's Delight, section 5-4) |
| `Words.HasOps` | src/misc/bitSet.cpp:228-292 | or, and, xor and complement of words are the operations on their bits |
| `Words.Extensional` | src/misc/bitSet.cpp:294-308 | words with the same bits are equal |
| `Counting.BitCountIsCount` | src/misc/bitSet.cpp:153-162 | the parallel addition gives the number of set bits (Hacker's Delight, section 5-1) |
| `BitSets.Canonical` | src/misc/bitSet.cpp:294-308 | two vectors without zero words at their ends that stand for the same set are equal, so comparing words compares sets |
| `BitSets.BitSet.RecalculateWordsInUse` | src/misc/bitSet.cpp:73-82 | restores the invariant that the last word is not zero, and keeps the set |
| `BitSets.BitSet.Flip` | src/misc/bitSet.cpp:92-101 | one element is added if it was absent and removed if it was present |
| `BitSets.BitSet.Set` | src/misc/bitSet.cpp:103-110 | one element is added, and the invariant is kept |
| `BitSets.BitSet.Clear` | src/misc/bitSet.cpp:112-121 | one element is removed, and the invariant is restored |
| `BitSets.BitSet.Get` | src/misc/bitSet.cpp:130-134 | tells whether a number is an element |
| `BitSets.BitSet.NextSetBit` | src/misc/bitSet.cpp:164-179 | the least element that is not below the start, or -1 if there is none |
| `BitSets.BitSet.NextClearBit` | src/misc/bitSet.cpp:181-197 | the least number not below the start that is not an element |
| `BitSets.BitSet.IsEmpty` | src/misc/bitSet.cpp:199-201 | the vector is empty exactly if the set is |
| `BitSets.BitSet.Cardinality` | src/misc/bitSet.cpp:203-208 | the sum of the bit counts is the size of the set |
| `BitSets.BitSet.Equals` | src/misc/bitSet.cpp:294-308 | equality of words is equality of sets |
| `BitSets.BitSet.LogicalAnd` | src/misc/bitSet.cpp:214-222 | tells whether two sets have an element in common |
| `BitSets.BitSet.AndWith` | src/misc/bitSet.cpp:228-240 | intersection, also with itself |
| `BitSets.BitSet.OrWith` | src/misc/bitSet.cpp:242-255 | union, also with itself |
| `BitSets.BitSet.XorWith` | src/misc/bitSet.cpp:257-267 | symmetric difference, also with itself |
| `BitSets.BitSet.OrAnd` | src/misc/bitSet.cpp:282-292 | the intersection of two sets is added, whichever of the three are the same object |
| `BitSets.BitSet.Assign` | src/misc/bitSet.cpp:269-275 | the set becomes equal to another |
| `Compress.CheckBitSetPVField` | src/pvMisc/bitSetUtil.cpp:19-71 | the loop over subfields replaces the bits of its range by the canonical ones and changes no others; it reports whether any bit is left |
| `Compress.CheckMember` | src/pvMisc/bitSetUtil.cpp:43-60 | one turn of that loop |
| `CompressLaws.CompressMask` | src/pvMisc/bitSetUtil.cpp:73-76 | for a top structure: a bit is set afterwards exactly if the mask covered all leaves of the field but not all of those of any field around it; bits beyond the tree stay; the leaves that are covered stay the same |
| `CompressLaws.CompressKeepsCover` | src/pvMisc/bitSetUtil.cpp:19-76 | the covered leaves stay the same |
| `CompressLaws.CoverIffStandsFor` | src/pvMisc/bitSetUtil.cpp:19-76 | a leaf is covered exactly if its own bit or that of a field around it is set |
| `CompressLaws.CompressIsCanonical` | src/pvMisc/bitSetUtil.cpp:19-76 | two masks give the same result exactly if they cover the same leaves |
| `CompressLaws.CompressIsIdempotent` | src/pvMisc/bitSetUtil.cpp:19-76 | compressing twice is compressing once |
| `CompressLaws.CompressIsTopmost` | src/pvMisc/bitSetUtil.cpp:19-76 | the bits that remain are those of the topmost fields all of whose leaves are covered |
| `CompressLaws.CompressLeavesNoNestedBits` | src/pvMisc/bitSetUtil.cpp:19-76 | no bit that remains lies below another |
| `CompressLaws.CompressUsesFewestBits` | src/pvMisc/bitSetUtil.cpp:19-76 | no mask that covers the same leaves has fewer bits |
| `Limits.FitsCopied` | src/factory/PVUnion.cpp:210-249 | what fits its limits, and names a member wherever a union holds a value, is what is held after the copy, whatever was held before |
| `Limits.RefusedKeeps` | src/factory/PVDataCreateFactory.cpp:176-187 | a text or an array of numbers is stored exactly if its length is allowed; otherwise the field keeps what it held |
| `Limits.RefusedTextsKeep` | src/factory/PVDataCreateFactory.cpp:176-187 | the same for arrays of strings |
| `Limits.FieldsUpTo` | src/factory/PVStructure.cpp:340-352 | inside the value of a union, the first field of a structure that is refused divides the copy |
| `Limits.RefusedInUnion` | src/factory/PVUnion.cpp:210-249 | what a union holds when the value that is copied to it is refused |
| `Limits.NewFixedArray` | src/factory/PVDataCreateFactory.cpp:176-187 | a new fixed array fits only if its length is zero |
| `MaskedCopy.CopyUnchecked` | src/factory/PVStructure.cpp:340-352 | every leaf gets the value of the source until one is refused for its length or its selector, and no other object changes; it goes through exactly if all leaves fit |
| `MaskedCopy.CopyMasked` | src/factory/PVStructure.cpp:354-400 | the recursive copy under a mask or its inverse changes exactly the leaves that are covered, in order, up to the first that is refused; it goes through exactly if all of them fit |
| `MaskedCopy.CopyMember` | src/factory/PVStructure.cpp:377-399 | one turn of its loop, including the early return and the refusal |
| `MaskedCopy.NextChosen` | src/factory/PVStructure.cpp:361-363 | the next set or next clear bit is the next one chosen |
| `MaskedCopy.CopyUnderMask` | src/factory/PVStructure.cpp:354-400 | the inverse copy is the plain copy under the complement of the mask |
| `MaskedCopy.AcceptedIff` | src/factory/PVDataCreateFactory.cpp:92-105 | a copy goes through exactly if every leaf that the mask stands for is within its limit and every union in it names a member |
| `MaskedCopy.CarriedIsOverlay` | src/factory/PVStructure.cpp:354-400 | a copy that goes through changes exactly the covered leaves |
| `MaskedCopy.CarriedUpTo` | src/factory/PVStructure.cpp:354-400 | the first leaf that is refused divides the copy: covered leaves before it are copied, and none behind it |
| `MaskedCopy.NewInstanceRefused` | src/factory/PVDataCreateFactory.cpp:176-187 | a new structure with a fixed array is refused |
| `MaskedCopy.UnknownSelectorRefused` | src/factory/PVUnion.cpp:59-84 | a union that holds a value under a selector of no member is refused |
| `MaskedCopy.CopiedIffStandsFor` | src/factory/PVStructure.cpp:354-400 | a leaf is copied exactly if its own bit or that of a field around it is set |
| `MaskedCopy.CompressedCopy` | src/factory/PVStructure.cpp:354-400 | compressing the mask first changes nothing |
| `MaskedCopy.InverseSparesLeaf` | src/factory/PVStructure.cpp:354-400 | the inverse copy spares a leaf exactly if its bit and those of all fields around it are set |
| `MaskedCopy.InverseIsComplement` | src/factory/PVStructure.cpp:354-400 | inverse and plain copy split the leaves between them exactly if no leaf has both set and clear bits above it |
| `MaskedCopy.BothCopyLeaf` | src/factory/PVStructure.cpp:354-400 | the smallest mask under which both copies copy a leaf |
| `Selection.Compute` | src/copy/requestmapper.cpp:153-222 | one level of the selection: which base offsets are selected, which fields the requested type gets, and that it is refused exactly if one of its own names is not that of a structure of the request |
| `Selection.NestedNotChecked` | src/copy/requestmapper.cpp:153-222 | a badly composed field that is accepted because it is nested |
| `Selection.SlicedIffAsked` | src/copy/requestmapper.cpp:153-222 | a path exists in the requested type exactly if the request asks for it |
| `Selection.ChosenIffAsked` | src/copy/requestmapper.cpp:153-222 | an offset is selected exactly if the request asks for the path of its field |
| `Selection.MaskIffSelected` | src/copy/requestmapper.cpp:81-96 | the mask holds exactly the offsets of fields that the requested type has too |
| `Selection.SelectionClosed` | src/copy/requestmapper.cpp:139-140 | with a field, every field around it is in the mask |
| `Selection.SelectionMatches` | src/copy/requestmapper.cpp:81-140 | base, requested type and mask fit together: every requested field has a partner of the same kind, and the mask is closed upwards |
| `Selection.MaskModeMatches` | src/copy/requestmapper.cpp:93-96 | the same when the requested type is the base itself |
| `Selection.SliceIsTotal` | src/copy/requestmapper.cpp:98-138 | in slice mode every requested field has a partner in the mask, also when the request names fields in another order |
| `SelectionLaws.SelectedIffNamed` | src/copy/requestmapper.cpp:153-222 | a field of the base is selected exactly if the request, looked up as a structure, leads to it, or to a field around it that has no subfields in the request or is six names deep |
| `SelectionLaws.SelectedIffWithin` | src/copy/requestmapper.cpp:153-222 | for requests made of structures and of at most six levels: the fields that are named, and everything below those that are named without subfields |
| `SelectionLaws.SelectedBelowSix` | src/copy/requestmapper.cpp:22-181 | everything below a sixth name is selected |
| `SelectionLaws.RequestedIffNamed` | src/copy/requestmapper.cpp:153-222 | the requested type has exactly the fields of the base that the request names |
| `SelectionLaws.RequestedKind` | src/copy/requestmapper.cpp:177-215 | a requested field is that of the base if it is taken as a whole or has no subfields, and otherwise a structure with the id of the base if ids are kept and the default one if not |
| `SelectionLaws.SlicedOrder` | src/copy/requestmapper.cpp:157-160 | requested fields come in the order of the request |
| `MapperTables.PartnerOfRequested` | src/copy/requestmapper.cpp:110-124 | fields of equal full name are each other's partners, seen from the request |
| `MapperTables.PartnerOfBase` | src/copy/requestmapper.cpp:110-124 | and seen from the base, exactly for the offsets in the mask |
| `MapperTables.PartnersNest` | src/copy/requestmapper.cpp:126-137 | the pairing keeps nesting in both directions and is one to one |
| `MapperTables.AddToParents` | src/copy/requestmapper.cpp:126-137 | a pair is added to the masks of exactly the fields around it |
| `MapperTables.NameOfPartner` | src/copy/requestmapper.cpp:110-113 | looking up the full name of a requested field in the base finds its partner and never fails |
| `MapperTables.FillTables` | src/copy/requestmapper.cpp:98-138 | both tables: an entry exists exactly for the selected fields, leads to the partner, and lists exactly the partners of its proper descendants and those descendants |
| `RequestMapper.SelectFields` | src/copy/requestmapper.cpp:70-92 | no selection or an empty one selects everything |
| `RequestMapper.FieldsAreNamed` | src/copy/requestmapper.cpp:70-71 | the selection is what a lookup of "field" in the request finds |
| `RequestMapper.PVRequestMapper.Compute` | src/copy/requestmapper.cpp:49-151 | transactional: on failure the mapper is unchanged, and which failure is stated; on success types, mask and tables are those of the request, and in mask mode the requested type is that of the base |
| `RequestMapper.PVRequestMapper.Reset` | src/copy/requestmapper.cpp:317-326 | the mapper is as if newly made |
| `RequestMapper.PVRequestMapper.Swap` | src/copy/requestmapper.cpp:306-315 | two mappers exchange all of their state |
| `MapperCopy.MapEntry` | src/copy/requestmapper.cpp:257-275 | one turn of the copying loop: what is copied or refused, marked, and added to the mask that is being scanned |
| `MapperCopy.MapFields` | src/copy/requestmapper.cpp:246-277 | although the loop adds to the mask that it scans: a leaf of the destination is written exactly if its partner is selected and its bit or that of a field around it was set at the start, and exactly the partners of the fields reached are marked; it stops at the first such leaf that does not fit |
| `MapperCopy.MapMask` | src/copy/requestmapper.cpp:279-304 | translating a mask marks exactly the bits that copying under it marks |
| `RequestMapper.PVRequestMapper.CopyBaseToRequested` | src/copy/requestmapper.cpp:224-233 | the copy from base to request is `Get`, and the mask is translated; it goes through exactly if every leaf that is got fits |
| `RequestMapper.PVRequestMapper.CopyBaseFromRequested` | src/copy/requestmapper.cpp:235-244 | the copy back is `Put`, and the mask is translated back; it goes through exactly if every leaf that is put fits |
| `RequestMapper.PVRequestMapper.MaskBaseToRequested` | src/copy/pv/createRequest.h:177-183 | translates a base mask by the table from base to request |
| `RequestMapper.PVRequestMapper.MaskBaseFromRequested` | src/copy/pv/createRequest.h:185-191 | translates a request mask by the table back |
| `MapperLaws.GetWrites` | src/copy/requestmapper.cpp:246-277 | if nothing is refused: a requested leaf is written exactly if it is selected and it or a field around it is in the mask, with the value of the base field of the same full name |
| `MapperLaws.PutWrites` | src/copy/requestmapper.cpp:246-277 | the same from request to base |
| `MapperLaws.PutKeepsUnselected` | src/copy/requestmapper.cpp:246-277 | base leaves that are not selected never change |
| `MapperLaws.PutGet` | src/copy/requestmapper.cpp:224-277 | for every request mask: a get under the mask translated back returns what was put at the selected leaves that the mask stands for, and writes no other |
| `MapperLaws.PutGetWhole` | src/copy/requestmapper.cpp:224-277 | with everything put and got, every selected leaf comes back |
| `MapperLaws.TranslatedBackTouches` | src/copy/requestmapper.cpp:279-304 | a mask translated back means for a base field what the mask means for its partner |
| `MapperLaws.GetPut` | src/copy/requestmapper.cpp:224-277 | putting back what was got, under the translated mask, leaves the base unchanged |
| `MapperLaws.PutGetAccepted` | src/copy/requestmapper.cpp:224-277 | for every request mask: the get under the mask translated back is refused exactly if the put is |
| `MapperLaws.PutGetWholeAccepted` | src/copy/requestmapper.cpp:224-277 | the same with everything |
| `MapperLaws.GetPutAccepted` | src/copy/requestmapper.cpp:224-277 | putting back what was got is refused exactly if the get is |
| `MapperLaws.PutPut` | src/copy/requestmapper.cpp:224-277 | step: the second put wins |
| `MapperLaws.TopMask` | src/copy/requestmapper.cpp:246-304 | the mask of only the top translates to everything requested, and stands for it |
| `MapperLaws.MaskRoundTrip` | src/copy/requestmapper.cpp:279-304 | translating a mask and back gives the selected fields that it reaches |
| `MapperLaws.TranslatedTouches` | src/copy/requestmapper.cpp:279-304 | a translated mask means for a requested field what the mask means for its partner |
| `MapperLaws.NoOpIffDisjoint` | src/copy/pv/createRequest.h:108-120 | a mask translates to nothing exactly if it is disjoint from the requested mask, and then copying changes nothing |
| `MapperLaws.MaskModeRequested` | src/copy/requestmapper.cpp:93-96 | in mask mode the fields that may be set in a request mask are exactly those of the requested mask |
| `MapperLaws.SliceModeRequested` | src/copy/requestmapper.cpp:98-138 | in slice mode they are all fields of the request, so the check on copying back cannot fail |
| `Wire.IntRoundTrip` | src/misc/pv/byteBuffer.h:733-800 | integers in either byte order come back |
| `Wire.IntBytesAt` | src/misc/pv/byteBuffer.h:733-800 | which byte of a number stands where in either byte order |
| `Wire.SizeRoundTrip` | src/misc/serializeHelper.cpp:28-60 | sizes of one and of five bytes and the null size come back and leave the rest |
| `Wire.SizeForm` | src/misc/serializeHelper.cpp:34-46 | sizes below 254 and the null size take one byte, other sizes five |
| `Wire.SizeShortest` | src/misc/serializeHelper.cpp:34-60 | no shorter bytes are read as the same size |
| `Wire.LongSizeRead` | src/misc/serializeHelper.cpp:48-60 | every size is accepted in the long form, and a negative one is refused |
| `Wire.StringRoundTrip` | src/misc/serializeHelper.cpp:62-77 | strings come back and leave the rest |
| `Wire.OddStrings` | src/misc/serializeHelper.cpp:102-145 | a null string is read as the empty one, and one that is cut off is not read |
| `TypeCodec.TypeRoundTrip` | src/factory/FieldCreateFactory.cpp:1477-1598 | every type that can be created comes back from its description and leaves the rest |
| `TypeCodec.BodyRoundTrip` | src/factory/FieldCreateFactory.cpp:226-302 | identifiers, with default ones sent as empty strings, names and subfields come back |
| `TypeCodec.ScalarCodes` | src/factory/FieldCreateFactory.cpp:1441-1475 | step: the code of a scalar type is decoded to that type, also with the bits for arrays |
| `TypeCodec.TypesArePrefixFree` | src/factory/FieldCreateFactory.cpp:1477-1598 | no description is the beginning of another |
| `TypeCodec.TypeIsNotNull` | src/factory/FieldCreateFactory.cpp:1477-1482 | step: none starts with the byte for no type |
| `WireForms.ScalarCodeForm` | src/factory/FieldCreateFactory.cpp:157-175 | the code of a scalar tells its kind, its width and whether it has a sign |
| `WireForms.ScalarCodeRead` | src/factory/FieldCreateFactory.cpp:1441-1475 | what every code is read as, also those that are never sent |
| `WireForms.FirstByte` | src/factory/FieldCreateFactory.cpp:446-498 | the first byte of every description |
| `WireForms.SingleBytes` | src/factory/FieldCreateFactory.cpp:1477-1598 | what the bytes for no type, the variant union and its array are read as |
| `WireForms.RefusedTypes` | src/factory/FieldCreateFactory.cpp:1477-1598 | codes that stand for nothing, and limits on strings and arrays that are not allowed, are refused |
| `WireForms.DefaultIdOmitted` | src/factory/FieldCreateFactory.cpp:226-302 | default ids are sent as a single zero byte, and no other id is |
| `WireForms.ReadTypeProper` | src/factory/FieldCreateFactory.cpp:247-302 | whatever the bytes are, a type that is read from them has valid names that differ at each level |
| `ValueLaws.ValueRoundTrip` | src/factory/PVUnion.cpp:121-177 | every value comes back and leaves the rest, for nested structures, arrays with nulls, unions with a selector and variant unions that carry their type, whatever the destination held |
| `ValueLaws.HeldDoesNotMatter` | src/factory/PVStructureArray.cpp:159-186 | what is read never depends on what the destination held, also for bytes that are not an encoding of anything |
| `WireForms.NumbersAt` | src/factory/PVDataCreateFactory.cpp:385-402 | numbers stand side by side, each in its width |
| `WireForms.ArrayForm` | src/factory/PVDataCreateFactory.cpp:365-383 | only fixed arrays are sent without their length |
| `WireForms.FieldsInOrder` | src/factory/PVStructure.cpp:218-223 | the fields of a structure are sent in their order |
| `WireForms.ItemsInOrder` | src/factory/PVStructureArray.cpp:188-213 | so are the elements of an array |
| `WireForms.Marker` | src/factory/PVStructureArray.cpp:188-213 | a null element is a zero byte, and any other one follows a one |
| `WireForms.MarkerRead` | src/factory/PVStructureArray.cpp:159-186 | any marker but zero stands for an element |
| `WireForms.NullUnion` | src/factory/PVUnion.cpp:121-143 | a union without a value is a single byte |
| `WireForms.NewFieldsAreEmpty` | src/pv/pvData.h:340-372 | new numbers are zero, and new texts, arrays and unions are empty |
| `Sink.Serializer.EnsureBuffer` | src/misc/serializeHelper.cpp:161-175 | room is made, and nothing that was written is lost |
| `Sink.Serializer.WriteSize` | src/misc/serializeHelper.cpp:28-46 | appends the encoding of the size, which is the byte itself below 254 and five bytes from there on |
| `Sink.Serializer.SerializeString` | src/misc/serializeHelper.cpp:62-77 | whatever the capacity, the pieces add up to the encoding, and the loop ends |
| `Sink.Serializer.SerializeNumbers` | src/factory/PVDataCreateFactory.cpp:385-402 | the same for numbers of any width that are put as many at a time as fit |
| `Sink.Serializer.SerializeTexts` | src/factory/PVDataCreateFactory.cpp:436-450 | the same for arrays of strings |
| `Sink.Serializer.SerializeArray` | src/factory/PVDataCreateFactory.cpp:365-383 | the size goes before the elements unless the array is fixed |
| `Sink.Serializer.SerializeType` | src/factory/FieldCreateFactory.cpp:446-498 | flushed bytes and pending buffer are the pure encoding of the type |
| `Sink.Serializer.SerializeUnion` | src/factory/PVUnion.cpp:121-143 | a variant union is sent with its type, another with its selector |
| `Sink.Serializer.SerializeItems` | src/factory/PVStructureArray.cpp:188-213 | null markers and elements |
| `Sink.Serializer.SerializeValue` | src/factory/PVStructure.cpp:218-223 | flushed bytes and pending buffer are the pure encoding of the value |
| `Sink.SerializeToVector` | src/misc/serializeHelper.cpp:196-207 | the output is the pure encoding, for every capacity of at least nine bytes |
| `Source.Deserializer.EnsureData` | src/misc/serializeHelper.cpp:221-225 | succeeds exactly if enough data is to come, and loses none |
| `Source.Deserializer.GetSize` | src/misc/serializeHelper.cpp:48-60 | reads what decoding the remaining bytes gives |
| `Source.Deserializer.DeserializeString` | src/misc/serializeHelper.cpp:102-145 | the fast path and the loop over pieces read the same |
| `Source.Deserializer.GetChunk` | src/factory/PVDataCreateFactory.cpp:340-357 | each turn takes complete elements or makes one available |
| `Source.Deserializer.DeserializeNumbers` | src/factory/PVDataCreateFactory.cpp:338-358 | however the data is cut into pieces, also inside an element, the elements are those of the pure decoding |
| `Source.Deserializer.DeserializeTexts` | src/factory/PVDataCreateFactory.cpp:409-433 | the same for arrays of strings |
| `Source.Deserializer.DeserializeType` | src/factory/FieldCreateFactory.cpp:1477-1598 | the same for types |
| `Source.Deserializer.DeserializeValue` | src/factory/PVStructure.cpp:225-231 | the same for values, into a field that holds another value |
| `Source.Deserializer.DeserializeEach` | src/factory/PVStructureArray.cpp:159-186 | the same for arrays with null markers |
| `Source.ReceiveValue` | src/misc/serializeHelper.cpp:243-252 | a value that was sent arrives, for every way to cut its bytes into pieces |
| `Unions.PVUnion.Select` | src/factory/PVUnion.cpp:59-84 | when it fails, when it keeps the value, and when it starts a new one; the invariant of selector and value is kept, and a selector of no member counts as unchanged if it is already held |
| `Unions.PVUnion.SelectByName` | src/factory/PVUnion.cpp:86-92 | the same by name |
| `Unions.PVUnion.Set` | src/factory/PVUnion.cpp:94-119 | accepts a value exactly if its type is that of the member, and changes nothing otherwise |
| `Unions.PVUnion.CopyUnchecked` | src/factory/PVUnion.cpp:210-249 | copying goes through exactly if the value fits and gives that value; for two unions with the same selector of no member, exactly if the values that they hold fit |
| `Unions.PVUnion.Deserialize` | src/factory/PVUnion.cpp:145-177 | reading reuses a held value only when its type fits and gives what was sent; the invariant holds afterwards exactly if the size is unreadable, the null selector, or that of a member |
| `Unions.UnknownSelector` | src/factory/PVUnion.cpp:160-168 | a selector of no member is kept and breaks the invariant |
| `StructureArrays.PVStructureArray.Compress` | src/factory/PVStructureArray.cpp:63-98 | the elements that are not null remain, in order |
| `StructureArrays.PVStructureArray.Remove` | src/factory/PVStructureArray.cpp:40-61 | a stretch is cut out, or it is refused and nothing changes |
| `StructureArrays.OnlyNullsAreLost` | src/factory/PVStructureArray.cpp:63-98 | every element that is not null stays as often as before |
| `BitSetWire.WordRoundTrip` | src/misc/bitSet.cpp:315-363 | a word comes back from its value as a number |
| `BitSetWire.BitSetRoundTrip` | src/misc/bitSet.cpp:315-363 | a bit set comes back and leaves the rest, in either byte order, with a last word of any length |
| `BitSetForms.SizeThenBody` | src/misc/bitSet.cpp:315-337 | step: the bytes are a size and as many bytes |
| `BitSetForms.BitAt` | src/misc/bitSet.cpp:315-337 | which bit of which byte stands for which number: complete words follow the byte order, an incomplete last word never does |
| `BitSetForms.BytesNeeded` | src/misc/bitSet.cpp:315-337 | there are just as many bytes as the largest number needs |
| `BitSetForms.NullSet` | src/misc/bitSet.cpp:339-363 | the null size is read as the empty set |
| `BitSetWire.Serialize` | src/misc/bitSet.cpp:315-337 | appends the encoding of the set |
| `BitSetWire.Deserialize` | src/misc/bitSet.cpp:339-363 | the set that was sent, without zero words at the end whatever the sender wrote; after missing bytes, the exact words that are left and exactly when they keep the invariant |
| `BitSetWire.ResizedTrimmed` | src/misc/bitSet.cpp:341-349 | resizing leaves no zero word at the end exactly if it cuts at a word that is not zero, or to nothing |
| `BitSetWire.MissingBytes` | src/misc/bitSet.cpp:341-349 | an empty set that ends in a zero word after a read that failed |
| `MaskedWire.SerializeMasked` | src/factory/PVStructure.cpp:233-267 | the bytes are those of exactly the covered leaves, in order |
| `MaskedWire.SerializeTree` | src/factory/PVStructure.cpp:218-223 | a whole subtree is sent as its leaves |
| `MaskedWire.DeserializeMasked` | src/factory/PVStructure.cpp:269-303 | the covered leaves take what is read, in place; after an error those before the first that cannot be read have been received, and those behind it keep what they held |
| `MaskedWire.DeserializeTree` | src/factory/PVStructure.cpp:225-231 | the same for a whole subtree |
| `MaskedWire.BrokenOnce` | src/factory/PVStructure.cpp:269-303 | the leaf at which reading fails is determined by the bytes |
| `MaskedWire.SendDelivers` | src/factory/PVStructure.cpp:233-303 | receiving what was sent under a mask gives exactly the covered leaves their values, whatever their lengths |
| `MaskedWire.SendIsCopyIffFits` | src/pv/pvData.h:361-366 | receiving what was sent under a mask does what copying under it does exactly if every covered leaf fits |
| `MaskedWire.SentButNotCopied` | src/pv/pvData.h:361-366 | a bounded string that is received and refused by a copy |
| `MaskedWire.CompressedSend` | src/factory/PVStructure.cpp:233-267 | compressing the mask first does not change the bytes |
| `MaskedWire.SentValuesOnly` | src/factory/PVStructure.cpp:233-267 | the bytes depend on the values of the covered leaves only |
| `MaskedWire.SendAndReceive` | src/factory/PVStructure.cpp:233-303 | sending through a buffer of any capacity and receiving changes exactly the covered leaves of the destination |
| `TimerQueue.InsertPlace` | src/misc/timer.cpp:47-60 | a callback is put behind all that are due no later |
| `TimerQueue.InsertSorted` | src/misc/timer.cpp:47-60 | the queue stays sorted and without repetitions |
| `TimerQueue.WithoutSorted` | src/misc/timer.cpp:76-84 | step: the queue stays sorted after an erasure |
| `Timers.Timer.AddElement` | src/misc/timer.cpp:47-60 | the search for the place is the insertion |
| `Timers.Timer.Cancel` | src/misc/timer.cpp:63-86 | all four outcomes of cancelling; it always finds what is on the list |
| `Timers.Timer.IsScheduled` | src/misc/timer.cpp:88-92 | tells whether the callback is on the list |
| `Timers.Timer.SchedulePeriodic` | src/misc/timer.cpp:185-212 | what scheduling does to queue and callback, field by field, when it is refused, and when it owes a signal |
| `Timers.Timer.NextJob` | src/misc/timer.cpp:101-124 | the worker's decision under the lock: sleep, run the first callback, or wait |
| `Timers.Timer.Advance` | src/misc/timer.cpp:128-136 | the next due time and the worker's clock reading after a callback |
| `Timers.Timer.FinishJob` | src/misc/timer.cpp:125-140 | what the worker does after a callback, and exactly when the callback is queued again |
| `Timers.Timer.Drain` | src/misc/timer.cpp:158-176 | closing takes every callback off the list once and stops it |
| `TimerRuns.StepKeeps` | src/misc/timer.cpp:95-212 | every atomic step of worker, schedulers, cancelling and closing threads keeps the invariant |
| `TimerRuns.RunKeeps` | src/misc/timer.cpp:95-212 | so does every run |
| `TimerLaws.NoLostWakeup` | src/misc/timer.cpp:95-152 | in every reachable state in which the worker is blocked past the due time of the first callback, or blocked without a limit while there is one, the event is signalled or a thread still owes its signal; the same after closing |
| `TimerLaws.QueueConserved` | src/misc/timer.cpp:47-86 | in every reachable state the queue is sorted and without repetitions, it holds exactly the callbacks on the list while the timer is alive, and at most one callback is being processed |
| `TimerLaws.FateSettled` | src/misc/timer.cpp:63-176 | an insertion is removed by at most one of worker, cancelling and closing |
| `TimerLaws.EveryInsertionAccounted` | src/misc/timer.cpp:158-176 | an insertion is in the queue or has been removed, and all have been removed once closing is over |
| `TimerLaws.CancelIdles` | src/misc/timer.cpp:63-86 | after cancelling a callback is neither queued nor going to be queued by the worker, exactly if it is not being processed while on the list again |
| `TimerLaws.CancelledYetQueued` | src/misc/timer.cpp:63-152 | a run after which a cancelled callback is queued |
| `TimerLaws.IdleNeverStarts` | src/misc/timer.cpp:63-152 | such a callback does not start again in any run until it is scheduled |
| `TimerLaws.NeverEarly` | src/misc/timer.cpp:110-124 | no callback starts before it is due, and the one that starts is due first |
| `TimerLaws.ReadsNow` | src/misc/timer.cpp:95-152 | the worker's idea of the time is that of the clock when it starts, and after each sleep |
| `TimerLaws.StartsIffDue` | src/misc/timer.cpp:110-124 | the worker starts the first callback exactly if the timer is alive and some callback is due by its idea of the time |
| `TimerLaws.ScheduledFor` | src/misc/timer.cpp:185-212 | a callback is accepted exactly if it is not queued and the timer is alive; it is then queued for the time and with the period that were asked for |
| `TimerLaws.NotBeforeDelay` | src/misc/timer.cpp:185-212 | in no run does an accepted callback start before its delay is over, unless it is scheduled again |
| `TimerLaws.WakesLateBy` | src/misc/timer.cpp:141-150 | step: the worker wakes late by exactly the age of its clock reading |
| `TimerLaws.SlowCallbackDelaysNext` | src/misc/timer.cpp:125-150 | step: that is the time that the last callback took |
| `TimerLaws.RequeuedLater` | src/misc/timer.cpp:128-138 | step: a periodic callback is put back strictly later than the worker's clock reading; it keeps its phase unless it is a full period behind |
| `TimerLaws.QueuedAgainIff` | src/misc/timer.cpp:128-138 | after a callback it is queued exactly if it was queued meanwhile, or has a period, was not cancelled and the timer is alive |
| `TimerLaws.PeriodicStays` | src/misc/timer.cpp:101-140 | a periodic callback that is neither cancelled nor scheduled anew is queued or being processed in every later state while the timer is alive |
| `TimerLaws.ScheduledPeriodic` | src/misc/timer.cpp:185-212 | scheduling with a period starts that, also after an earlier cancelling |
| `TimerLaws.NotYetKept` | src/misc/timer.cpp:101-140 | step: a callback that is not due by the worker's clock does not start in one step, unless that step reads the clock |
| `TimerLaws.RunsAtMostOnce` | src/misc/timer.cpp:95-152 | in every run without a reading of the clock, a callback that is not scheduled anew starts at most once |
| `TimerLaws.PhaseKept` | src/misc/timer.cpp:128-138 | while it keeps up, its due time after k runs is the first one plus k periods, exactly |
| `TimerLaws.OvertakenBoundedly` | src/misc/timer.cpp:101-140 | a queued callback is overtaken by a periodic one only as often as periods fit between their due times |
| `Interning.StepKeeps` | src/factory/FieldCreateFactory.cpp:52-109 | creation, dropping the last reference and the late cleanup keep the invariant in every order |
| `Interning.InterningIsSound` | src/factory/FieldCreateFactory.cpp:52-109 | in every reachable state live types are cached, equal live types are the same object, and the subfields of a live type are live |
| `Interning.PointerEqualityIsTypeEquality` | src/pv/pvIntrospect.h:1462-1470 | pointers to live types are equal exactly if the types are |
| `Interning.CompareIsTypeEquality` | src/factory/Compare.cpp:82-134 | comparing subfields by pointer decides equality of types in depth |
| `Interning.FindEntry` | src/factory/FieldCreateFactory.cpp:58-77 | the search over the entries of one hash value makes an allowed choice, for created and for decoded types |
| `Interning.ReuseIsRight` | src/factory/FieldCreateFactory.cpp:52-83 | what is reused is the type that was asked for, if the hash separates |
| `Interning.CreateIsRightIffSeparates` | src/factory/FieldCreateFactory.cpp:52-83 | creating and decoding always give the type that was asked for, in every state reachable from the constructor's, exactly if the hash separates the arrays of each element type and all strings |
| `Interning.DecodedTextConfused` | src/factory/FieldCreateFactory.cpp:1512-1523 | two bounds of strings with one hash are enough for decoding to give the wrong type |
| `Interning.StartKeeps` | src/factory/FieldCreateFactory.cpp:1628-1650 | the types that the constructor makes are all different, so the invariant holds at the start |
| `RequestParser.ScanBalances` | src/copy/createRequest.cpp:69-82 | the place that is found is the first at which all braces are closed, and if none is found there is none |
| `RequestParser.FindMatchingBrace` | src/copy/createRequest.cpp:69-82 | jumping from brace to brace finds that place, and the recursion ends on every string |
| `RequestParser.FindMatchingBracket` | src/copy/createRequest.cpp:84-94 | finds the first closing bracket, which must not follow at once |
| `RequestParser.FindEndField` | src/copy/createRequest.cpp:96-122 | finds the comma that ends the field, not one inside brackets or braces |
| `RequestParser.CreateRequestImpl.CreateRequestOptions` | src/copy/createRequest.cpp:144-169 | the options of a text become a node and are recorded, or it is refused |
| `RequestParser.CreateRequestImpl.CreateSubNode` | src/copy/createRequest.cpp:171-272 | for every text: nodes, recorded options and failure are those of the pure parser, and the name of the enclosing field is restored |
| `RequestLaws.FieldsRoundTrip` | src/copy/createRequest.cpp:171-272 | every well-formed tree of names, options, dots, braces and commas is rebuilt from its text, in order |
| `RequestLaws.OptionsRoundTrip` | src/copy/createRequest.cpp:144-169 | so are its options |
| `RequestLaws.PairsAcceptedIff` | src/copy/createRequest.cpp:144-169 | options are accepted exactly if each has a name and an equals sign |
| `RequestLaws.LeadingSpecial` | src/copy/createRequest.cpp:171-219 | a text that begins with a dot, a brace or a comma is a name as a whole |
| `RequestLaws.TrailingComma` | src/copy/createRequest.cpp:214-272 | a comma behind the last field is refused if that field has no subfields, and else makes no difference |
| `RequestTypes.OptionsPlacedIffTidy` | src/copy/createRequest.cpp:171-272 | for every text that is accepted: each option is recorded under the full name of the leaf that is made for it exactly if every name that has brackets ends at them |
| `RequestTypes.LeavesResolve` | src/copy/createRequest.cpp:274-310 | the full name of every leaf for an option leads to a string of the type that is built |
| `RequestTypes.LeadsIffLeaf` | src/copy/createRequest.cpp:274-310 | a name leads to a string of the type that is built exactly if it is the full name of a leaf for an option |
| `RequestTypes.OptionsResolveIffMatched` | src/copy/createRequest.cpp:441-448 | for every text that is accepted, names no field like the node for options, and has distinct names: the last check does not refuse the request exactly if every option is recorded under a name that is due to some option |
| `RequestTypes.StrayIsMatched` | src/copy/createRequest.cpp:441-448 | brackets in the middle of a name: the text is accepted and not tidy, and its option is found all the same, in the place of another |
| `RequestTypes.OptionsResolve` | src/copy/createRequest.cpp:441-448 | so for every such text that is tidy each recorded option is found, and the last check does not refuse the request |
| `RequestTypes.WellFormedResolve` | src/copy/createRequest.cpp:441-448 | in particular for every well-formed tree |
| `RequestTypes.MisplacedBrackets` | src/copy/createRequest.cpp:182-206 | a text that is accepted and records an option under a name that does not exist |
| `JsonMask.ExpandBS` | src/json/jprint.cpp:248-272 | the mask becomes exactly the fields below and around its own |
| `JsonMask.MarkInside` | src/json/jprint.cpp:253-262 | one turn of the loop adds the fields below |
| `JsonMask.MarkAround` | src/json/jprint.cpp:264-270 | and the fields around |
| `JsonMask.LeafRelated` | src/json/jprint.cpp:248-272 | step: for a leaf the closure is what the mask stands for |
| `JsonRoundTrip.PrintJson` | src/json/jprint.cpp:285-295 | the events are those of the fields in the expanded mask; nothing is printed if it is empty |
| `Json.TypeIsShowable` | src/json/jprint.cpp:132-245 | step: every value of a type can be printed as one of that type |
| `Json.AcceptedIff` | src/json/parseinto.cpp:44-272 | which events are accepted on which fields |
| `JsonContext.Context.ValueAssign` | src/json/parseinto.cpp:54-140 | a value is stored, reported and left, or appended to the array that stays open, or refused; a text that is too long for its bound is refused |
| `JsonContext.Context.MapStart` | src/json/parseinto.cpp:176-199 | a map opens a structure or a new element of a structure array |
| `JsonContext.Context.MapKey` | src/json/parseinto.cpp:201-221 | a key opens the subfield of that name |
| `JsonContext.Context.MapEnd` | src/json/parseinto.cpp:223-248 | the field is closed; an element joins its array |
| `JsonContext.Context.ArrayStart` | src/json/parseinto.cpp:250-261 | accepted for arrays only |
| `JsonContext.Context.ArrayEnd` | src/json/parseinto.cpp:262-272 | the array is reported and closed |
| `JsonContext.Context.Parse` | src/json/parseinto.cpp:311-343 | the callbacks for a sequence of events do what the run of the stack machine says |
| `JsonLaws.FieldRun` | src/json/jprint.cpp:112-245 | reading the events of a field, whatever follows, whatever it held and whatever is below on the stack, stores its value where the mask allows it and closes it, exactly if texts, lengths and elements are within the limits; otherwise it fails |
| `JsonLaws.IntegerRoundTrip` | src/json/jprint.cpp:132-190 | integers of every width and sign survive the signed 64-bit number between printer and parser |
| `JsonLaws.ReadInteger` | src/json/parseinto.cpp:150-157 | every number that is read is accepted for every integer type, and cut to its width |
| `JsonLaws.PrintedInteger` | src/json/jprint.cpp:132-190 | which number is printed: the value itself, except that the widest unsigned integers are printed as signed ones |
| `JsonLaws.PrintedScalar` | src/json/jprint.cpp:132-148 | what is printed of booleans, strings and floating point numbers |
| `JsonLaws.PrintedUnion` | src/json/jprint.cpp:212-224 | a union is printed as the value that it holds, or as null |
| `JsonLaws.LongTextRefused` | src/json/parseinto.cpp:54-66 | a text that is longer than its bound is refused when it is read |
| `JsonRoundTrip.ReportedIffSelected` | src/json/parseinto.cpp:54-272 | the offsets reported are those of exactly the leaves that the mask stands for |
| `JsonRoundTrip.MergedAt` | src/json/parseinto.cpp:54-272 | and exactly those have the printed values |
| `JsonRoundTrip.WholeMerge` | src/json/parseinto.cpp:54-272 | without a mask a new instance becomes equal to the printed one |
| `JsonRoundTrip.ReadableIffReadBack` | src/json/parseinto.cpp:54-272 | a new instance accepts what was printed under a mask exactly if it accepts every leaf that was printed |
| `JsonRoundTrip.FixedArrayReadBack` | src/json/parseinto.cpp:73-92 | a fixed array is read back exactly if its length is at most one |
| `JsonRoundTrip.FixedPairRefused` | src/json/parseinto.cpp:73-92 | a fixed array of two elements that is printed and refused |
| `JsonRoundTrip.UsedDestination` | src/json/parseinto.cpp:54-272 | parsing into an instance that may be in use succeeds and gives the printed value exactly if that can be read back and the arrays of the instance are empty |
| `JsonRoundTrip.JsonRoundTrip` | src/json/jprint.cpp:110-272 | what is printed under a mask that selects something is read without error exactly if every leaf that the mask stands for can be read back; that then empties the stack, reports exactly those leaves, and sets exactly those |

## Left out

- Bit indices are unbounded; the wrap-around of 32-bit indices at 2^31 and of the 32-bit sum of bit counts is not modelled.
- Immutability flags, post handlers, the sharing of array elements by reference count, and the texts of error messages.
- The loops of mapper and JSON printer over the fields around a field find each of them from the path rather than by the pointer; that the pointer leads to the same field is `Parents.SetParents`.
- Copies and lookups require a tree that has been numbered; structures built from fields that were numbered in another tree, which may keep their old offsets, are not modelled.
- Copies require that two instances are the same or share no object.
- RequestMapper.PVRequestMapper.Compute: takes the value of `keepIDs` as a parameter and the request as its type, because only the names in it are used; the texts of warnings are left out.
- RequestMapper.PVRequestMapper.Compute: the masks inside the table entries are sets of numbers, and the scratch mask that the source keeps as a field is local to one copy.
- RequestMapper.PVRequestMapper.CopyBaseFromRequested: request masks must stay within the requested fields, as the assertion in the source demands.
- MapperCopy.MapMask: source and destination masks are different objects.
- The clock of the timer is monotone and exact; the internals of mutex and event, thread creation and `dump` are left out.
- The timer's callbacks may schedule and cancel, themselves included, but a periodic callback that is being processed is not scheduled again with a period, as the assertion in the source demands.
- Interning.CreateIsRightIffSeparates: the hash is any function of the type; that the printed form which the source hashes separates types is not proved.
- Unbounded memory: allocation failures and the size limits of vectors.
- `serializeSubstring`, the shortcuts `directSerialize` and `directDeserialize`, and the type caches of connections, which the sink and source modelled here do not use.
- Source.Deserializer.EnsureData: where more data comes from is a sequence of pieces; the source in this repository is the case of one piece.
- MaskedWire.DeserializeMasked: reads from the remaining bytes rather than from a buffer object; after an error it does not say what the one leaf holds at which reading failed.
- Element types of the wrong kind, which the source casts without a check, count as errors.
- Unions.PVUnion.DeserializeSelected: a union whose stale selector is read once more while it holds no value, where the source follows a null pointer, is not modelled.
- MaskedCopy.CopyUnchecked: instances in which two unions hold the same selector of no member are excluded, here and in the copies of the mapper, because what happens then depends on types that their values do not show; the class of unions states it.
- Unions.PVUnion.Set: whether two unions share the value they hold is not modelled.
- Floating point numbers are bit patterns; strings are bytes without an encoding.
- The sections of a request (`record[`, `field(`, `putField(`, `getField(`), the removal of blanks and the count of parentheses around the part modelled in `RequestParser`.
- JSON text, comments and numbers as text; the conversions between kinds of values are a parameter of the event machine.
- JsonRoundTrip.JsonRoundTrip: types are built from scalars, arrays of scalars, structures and arrays of structures, and booleans hold 0 or 1; unions are left out because the parser guesses a member.
- JSON keys with dots, which the parser would look up as paths; floating point values that are infinite or not a number, at which the printer fails.
- `ByteBuffer` beyond putting and getting at the current position: absolute positions, alignment, `flip` and `rewind`, and moving unread data to the front.
- `PVUnionArray`, a twin of the structure array; capacity and length changes of arrays; `Convert`, `StandardField`, property wrappers, `AnyScalar`, `TimeStamp`, `Status`, printing.
