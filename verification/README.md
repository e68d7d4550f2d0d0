# A verified model of the DAP2 constraint engine

This project models, in Dafny 4.11, the part of libdap2 that decides which array elements a request means: it composes
slices, walks strided boxes, caches what was fetched, prints constraints into a URL and reads them back, and prepares
the tree that all of this refers to. Each loop or in-place update of the original is a method with the same branches,
proved against a function on values; what the original promises is then proved of those functions for all inputs, all
runs, or all places of a tree.

Run `dafny verify dfyconfig.toml` to check everything.

## The parts

- `Ranges`, `Slices`: a slice `[first:stride:last]` denotes a strided range. Composition, whole slices, and the
  invariant of `dceconstraints.h`.
- `Boxes`, `Segments`, `Odometer`, `Offsets`, `Readers`: the odometer as a class over five arrays, the row-major order
  of a strided box as its specification, and the reader that replaces element-wise reading by chunks. The data layer
  is an oracle that returns consecutive elements of a row-major array, or fails.
- `Projections`, `Requests`, `Restriction`, `Nested`, `GetVara`: projections as objects that share nothing after a
  clone, the projection built from get-vara arguments, what restricting the one by the other means, the descent to a
  variable inside other nodes, and the whole request from its arguments to memory.
- `Fetching`, `Parts`, `Strings`: what the server makes of the text of a fetch, how the answer to a partial fetch is
  read in, and how strings are cut.
- `Cache`, `Cacheable`: the list of cached fetches as a class, and as a state machine whose runs are sequences of
  searches, insertions and prefetches; when an answer holds whole variables, and what is read from it later.
- `Printer`, `Lexer`, `Parser`, `RoundTrip`: the printer into a buffer, the scanner, the parse actions, the grammar as
  functions on tokens, and the round trip.
- `Notation`: what is a word, a number or a mark, and what texts of projections and ranges mean, character by
  character. The notation is the constraint expression of DAP 2.0.
- `Tree`: the nodes of a dataset's tree, with parent links. A ghost value, its shape, names the nodes and the places.
- `Names`, `Fixing`: resolving and completing the names of projections, and removing duplicates and containers from
  their list.
- `Sequences`, `DimSets`, `Restruct`, `Alike`, `Repair`, `RepairedTree`, `Mapping`, `Alignment`: the passes over such
  trees, the repair followed by the map, when two trees agree as they stand, and when the map respects parents.

## Where the code departs from what it says

The model follows the code. For each point there is the exact condition, and an input where the code fails if it can
receive one.

- The header gives `count` rounded up; the parser rounds it down (`RoundTrip.ParsedCount`). A parsed slice whose
  length lies strictly between one and two strides is printed with its first index only
  (`RoundTrip.ReprintKeepsIndices`), as `[0:3:3]` is (`RoundTrip.IndexIsLost`). Requests do not suffer from it, since
  composition does not look at the count, and neither do they from the constrained size with which a parsed slice is
  qualified, since composition restores the declared one (`Fetching.ParsedFits`, `Fetching.RoundedDownIsUsable`,
  `Fetching.SizeIsRestored`).
- The argument check lets a count of zero through iff start is at least one stride in, or the end wraps around
  (`Requests.ZeroCountAccepted`). The odometer tests only its first wheel (`Boxes.WalkedIsBox`), so a request for
  nothing along a later dimension reads elements all the same: `Readers.Extract` and `GetVara.ReadVara` say exactly
  when, and `Readers.EmptyRequestReadsTwo` is an input. If such a request is fetched, the range in its text ends
  before it starts, and the text is not legal (`Fetching.TextIsLegal`, `Fetching.NoColumns`).
- The answer to a partial fetch is read straight to memory if it needs no conversion, but the place in memory does not
  move on. In an array of structures each instance is then copied over the one before: the result is right iff only
  one is asked for (`Parts.ReadFetched`).
- When a whole variable is to be fetched, its own slices are dropped from the text, and those of arrays of structures
  around it are not. The walk takes them for places in the answer all the same, and leaves it unless each selects 0,
  1, 2 and so on (`Parts.OuterWalkStays`, `Parts.OuterWalkLost`). An array that is then read straight is read from its
  first element on (`Parts.StraightIsSelection`).
- The loop that cuts a string ends at the length of the slice, not behind its last index; characters are missed iff
  the last one selected does not lie below that length (`Strings.StringsAreSelected`, `Strings.TailIsMissed`). When a
  part is fetched the server sends whole strings, of which the first characters are then taken
  (`Strings.ShiftedIsSelected`).
- A request whose end exceeds 2^64 passes the check but loses indices (`Requests.VaraDenotes`);
  `Requests.ZeroCountAtOrigin` gives the sizes for which an empty request selects something.
- Merging ignores the failure of a composition and then keeps the URL's slice (`Restriction.MergeSliceExact`). No
  accepted request meets that failure (`Restriction.AcceptedComposes`), and the other caller of the merge,
  `dcemergeprojectionlists`, is itself never called.
- `cachecount` is called the maximum number of nodes, but is applied before the new node is listed
  (`Cache.CountLimitKept`, `Cache.CountLimitExceeded`).
- A tie between shortest paths is reported only if three are shortest, or two of which neither is the first match
  (`Names.RefusedIff`, `Names.TieNotReported`).
- The search for a grid field has the parent's child count as its bound (`Restruct.GridFieldExists`), so a map can be
  out of reach (`Restruct.MapOutOfReach`); `Restruct.PlanExists` says when the whole match succeeds.
- The map asserts that a node has no more children than what it is mapped to, but a server may leave a grid out and
  answer with its fields. In a build with assertions the repair succeeds and the map then stops the program
  (`RepairedTree.RepairAndMap`, `RepairedTree.RunsIffNoneWider`, `RepairedTree.BareFieldsAbort`).
- Containers in a list of projections should be expanded into their fields; the second step drops them all
  (`Fixing.AskedForRemains`, `Fixing.LoneStructureVanishes`).

Mapping onto the full tree does not stop at the first match. This does no harm exactly when every earlier match
reaches only what the last one reaches (`Alignment.RespectsIffTidy`). Descriptions with duplicate names are rejected
in `oc2/dapparse.c:43-60` and `oc2/dapparse.c:273-324`, except between the array of a grid and one of its maps, and
for such trees the condition holds (`Alignment.ParsedTreesRespect`). Between such an array and map the repair takes
the first that matches and the map the last (`RepairedTree.TwinsDiffer`, `RepairedTree.LastIsCounterpart`).

## Model

The main results come first.

| member | source | states |
|---|---|---|
| GetVara.ReadVara | libdap2/getvara.c:190-263 | an accepted request for a cached variable at the end of any path of grids, structures and arrays of structures, with any slices in the URL that end inside the dimensions: its projection is built, the first projection of the URL that has the variable's own annotation is restricted by it, and the result is read; when no request wraps, memory holds the elements at the requested points looked up in what the URL selects, in order, iff nothing is asked for along some node's first dimension or something along all dimensions; of each dimension the cache may hold only as much as the URL's slice reaches |
| Cacheable.CachedIsRight | libdap2/getvara.c:273-283 | what is read right from the cached answer to a fetch of whole segments is read right from the variable itself, and the other way round |
| Nested.MoveTo | libdap2/getvara.c:455-617 | the descent through single structures and arrays of structures to a variable that is no string, with an odometer of its own for every array, reads the elements at the nested walk's points, in order |
| Nested.NestedIsSelection | libdap2/getvara.c:500-520 | what the nested odometers visit is what all slices together select iff some node's first slice is empty or no slice is |
| GetVara.FetchedPart | libdap2/getvara.c:350-363 | when a part is fetched and something is asked for along every dimension, what the restricted projection selects is what was requested, and walking the shifted request over it meets offsets 0, 1, 2, ... |
| Fetching.FetchedText | libdap2/dceconstraints.c:304-313 | when something is asked for along every dimension, the text of a fetch projection reads back as the same segments, and an answer holds what they select iff it holds what was requested, looked up in what the URL selects |
| Fetching.TextIsLegal | libdap2/dceparse.c:144-149 | while strides do not exceed the type, the text of a fetch projection is read as the same segments iff something is asked for along every dimension, and is an error otherwise |
| Parts.ReadFetched | libdap2/getvara.c:861-885 | the answer to the fetch of a part, read in by the shifted request at the end of any such path, leaves in memory what was requested iff it needs a conversion, or the variable has no dimensions of its own, or only one instance is walked |
| Parts.OuterWalkStays | libdap2/getvara.c:316-338 | when a variable is fetched without its own slices, the walk over an array of structures around it stays inside what was sent iff every slice selects 0, 1, 2 and so on, and it finds what it should iff the same holds |
| Parts.StraightIsSelection | libdap2/getvara.c:878-885 | reading as many elements as are selected from the first one on is reading those selected, whatever the array holds, iff the slices take single first indices, then a run from the first on, then all of each dimension |
| Strings.StringsAreSelected | libdap2/getvara.c:890-989 | memory that holds the characters at the places taken, point by point, holds those selected iff, when all other slices select something, the last selected character lies below the length of the last slice, and when one does not, the first selects nothing or the characters begin behind that length |
| Readers.Extract | libdap2/getvara.c:803-859 | one shot, chunks and element by element all deliver the elements at the points that the odometer visits, converted when asked, whatever the sizes of the cached array; these are the elements selected iff the first slice is empty or no later one is |
| Readers.WalkIsSelection | libdap2/getvara.c:841-861 | what was walked is what was selected iff the first slice is empty or no later one is |
| Readers.EmptyRequestReadsTwo | libdap2/getvara.c:190-203 | a request of two rows and no columns of a 3 by 3 array is accepted, denotes no point, and reads two elements |
| Offsets.ChunksRefineWalk | libdap2/dceconstraints.c:982-1013 | element j of the chunk of the i-th visited prefix point is visited point i*chunk+j of the full walk, at the chunk's offset plus j |
| Restriction.RestrictionPreservesMeaning | libdap2/constraints.c:752-797 | for equal ranks and requests in range the restricted segment has as many points as the request, and its i-th point is the request's i-th point looked up in the URL's slices dimension by dimension |
| Requests.VaraDenotes | libdap2/constraints.c:409-426 | an accepted request denotes as many indices as it asks for iff start+stride*count is at most 2^64 and it is not an empty one at index 0 |
| Repair.RestructTree | libdap2/cdf.c:386-426 | success iff the tree was repaired before, or the roots match and every node can be placed; on success the tree is repaired as Repair.RunIsRepaired says, on failure nothing changes; every node then has a counterpart of the same name, number of dimensions, kind up to grid and structure, and type, but for a columbia dataset; a tree that agrees with the pattern in these, place by place and with siblings of different names, succeeds without a change |
| Repair.RunIsRepaired | libdap2/cdf.c:386-573 | the repaired tree has mutual parent and child links, differs only by single-child virtual structures, and every node of it matches its counterpart below its parent's counterpart |
| RepairedTree.RepairAndMap | libdap2/ncd2dispatch.c:2082-2097 | repairing and then mapping: for patterns as they are parsed it returns success iff the roots match, every node can be placed and, in a build with assertions, no node is wider than the one it is followed to; it stops the program iff only the last fails; on success the tree is repaired and every node, new ones too, has for its base the last sibling of its counterpart that matches it, and is like it in name, number of dimensions, kind and type, but for a columbia root; a tree that agrees with the pattern place by place gets no new node, and every node the one at its place for its base |
| RepairedTree.RunsIffNoneWider | libdap2/cdf.c:601-630 | the assertions of the map hold all over a repaired tree iff before the repair no node that is followed by name had more children than what it is followed to |
| Mapping.AlikeMapped | libdap2/cdf.c:597-653 | in a tree that agrees with the full one place by place, a grid counting as a structure, every node is mapped to the node at its place |
| Alike.AlikePlan | libdap2/cdf.c:434-504 | a tree that agrees with the pattern place by place, siblings having different names, needs no repair |
| Restruct.PlanExists | libdap2/cdf.c:434-504 | the match succeeds iff at every place of the two trees that can be followed by name each child has a matching namesake, or a matching grid field within the bound |
| Alignment.RespectsIffTidy | libdap2/cdf.c:634-645 | every mapped child's base is a child of its parent's base iff at every level an earlier match of a child reaches only nodes that the last one reaches |
| Alignment.MappedIffRespects | libdap2/cdf.c:597-653 | every node is mapped to what stands at its place of the full tree, and to nothing when nothing does, iff the map respects parents |
| Alignment.ParsedTreesRespect | oc2/dapparse.c:273-324 | it does when siblings of the same name are leaves, as in every tree that the duplicate checks let through |
| Cacheable.WholeAnswer | libdap2/constraints.c:446-477 | an answer to the fetch of segments that are whole by the constrained sizes, or have no slices, holds what they select iff it is the corner of the variable with those sizes, or all of a bare segment's dimensions |
| Cache.RunIsOrderedByUse | libdap2/cache.c:65-73 | in every reachable state the nodes stand in the order of their last use |
| Cache.RunKeepsAccounts | libdap2/cache.c:271-298 | after any run of searches, insertions and prefetches cachesize is the sum over the nodes, exceeds the limit only when the newest node is alone, and the list is at most one longer than cachecount |
| Cache.EvictionIsMinimal | libdap2/cache.c:275-295 | an insertion removes the shortest prefix of the list after which the new node fits and the count limit holds |
| Cache.EvictsLeastRecentlyUsed | libdap2/cache.c:275-295 | whatever an insertion removes was last used before everything it keeps |
| RoundTrip.PrintThenParse | libdap2/dcetab.c:1274-1588 | printing any list of projections whose names consist of letters, digits, _, -, +, / and backslash and do not begin with a digit or a sign, lexing and parsing the text gives back the same projections, segments and names, with each slice read back and whole segments bare, or an error iff some range that is printed ends before it starts |
| Notation.WordIsRead | libdap2/dcelex.c:25-30 | a text of letters, digits, _, -, +, /, % and backslash that begins with no digit or sign is lexed as one word with exactly that text, up to the end or a bracket, colon, dot or comma |
| Notation.RangeIsRead | libdap2/dceparse.c:123-158 | name[x:y:z] is read as a slice with first x, stride y, last z and the rounded-down count, and is an error iff y is 0 or z lies before x |
| RoundTrip.PrintParseQualify | libdap2/constraints.c:137-172 | a segment that is printed, read back and qualified selects what it did, and a whole one gets the same slices |
| Slices.ComposeExact | libdap2/dceconstraints.c:184-214 | composition fails iff s2.first is not a position of s1's output; otherwise the result denotes exactly s1's output looked up at the positions of s2 that lie inside it |
| Slices.ComposeAssociative | libdap2/dceconstraints.c:188-214 | both groupings of three slices fail together, and agree in every field when they succeed |
| Boxes.CarryIsNext | libdap2/dapodom.c:114-126 | the carry of a mixed-radix vector is the row-major successor, for every point of every box |
| Boxes.WalkedIsBox | libdap2/dapodom.c:95-99 | a run walks exactly the box iff the first wheel is empty or no later wheel is, since only wheel 0 is tested |
| Offsets.OffsetsFaithful | libdap2/dapodom.c:101-111 | while indices stay below the declared sizes, offsets strictly increase along the run and stay below the size of the array |
| Names.RefusedIff | libdap2/constraints.c:284-316 | a name is refused iff nothing matches, or more than two matches are shortest, or two are of which neither is the first match |
| Names.ResolvedThenCompleted | libdap2/constraints.c:110-134 | a name that resolves does so to a match of the shortest path among all nodes that match, and the completed segments spell out its full path |
| Fixing.FixProjections | libdap2/constraints.c:524-631 | what remains in the list is, in order, exactly the entries kept: every function call, and the first projection of each variable that is no container; an entry remains iff it is a call, or stands for an atomic variable that no earlier entry stands for |
| Sequences.UsedSequences | libdap2/cdf.c:289-348 | usesequence is set iff the node is a sequence without dimensions, no container above it is dimensioned, a sequence or a variable, and a variable below is reachable without crossing another sequence |
| DimSets.DefineDimsetsR | libdap2/cdf.c:890-904 | after the pass every node has its own dimensions, preceded by fresh clones of the container's; the clones, and nothing else, are added to the list of nodes |
| DimSets.NoSharing | libdap2/cdf.c:712-726 | two inherited entries are the same object iff they are the same entry of the same node |
| Mapping.MapNodes | libdap2/cdf.c:580-653 | NC_EINVAL when the roots do not match; else the program stops iff it is built with assertions and one fails on the way; else the base nodes are those of the recursive specification; each base is like its node in name, number of dimensions, kind and type, but for the root and for columbia datasets; a tree that agrees with the full one place by place is mapped place by place |
| Slices.SelectAt | libdap2/dceconstraints.c:188-214 | the k-th index of a composition exists iff s2 has a k-th position and it lies in s1's output, and it is s1[s2[k]] |
| Slices.ComposeMeetsHeader | libdap2/dceconstraints.c:184-214 | composing with a slice that selects something establishes last = first+length-1 and count = ceil(length/stride), whatever counts came in |
| Slices.ComposeWithEmpty | libdap2/dceconstraints.c:188-214 | composing with an empty slice keeps the header's equation for last iff s1 has stride 1; otherwise the length has wrapped around, and to which value |
| Slices.WholeIsLeftIdentity | libdap2/dceconstraints.c:925-934 | a whole slice on the left changes nothing iff it covers the other slice and is no longer than that slice's dimension |
| Slices.WholeIsRightIdentity | libdap2/dceconstraints.c:925-934 | a whole slice of sufficient size on the right keeps the selected indices |
| Slices.CountIsLength | libdap2/dceconstraints.h:19-28 | under the header's invariant count is the number of indices selected |
| Slices.WholeSelectsAll | libdap2/dceconstraints.c:925-934 | a whole slice meets the invariant, counts as whole and selects 0..n-1 in order |
| Segments.DCEsegment.ComposeSlice | libdap2/dceconstraints.c:188-214 | the composition done field by field in place: error code, new slice, and the old slice kept on failure |
| Segments.DCEsegment.SafeIndex | libdap2/dceconstraints.c:1001-1013 | the leftmost index from which all slices up to stop are whole, with the answers for undefined slices and for start at or beyond stop |
| Segments.DCEsegment.SegmentSize | libdap2/dceconstraints.c:982-993 | the product of the counts from start up to stop, 1 when start is not below stop, 0 when the slices are not defined |
| Segments.CountProductIsPoints | libdap2/dceconstraints.c:982-993 | under the header's invariant that product is the number of points of the box |
| Segments.StopRulesAgree | libdap2/dapodom.c:24-36 | stopping after last and stopping after count strides walk the same points in the same order |
| Odometer.Dapodometer.FromSegment | libdap2/dapodom.c:13-38 | the wheels are those of slices startindex up to stopindex, and the odometer stands at their starts |
| Odometer.Dapodometer.New | libdap2/dapodom.c:40-65 | the wheels for given or missing start, count, stride and size arguments, and the odometer at their starts |
| Odometer.NewWheelSelects | libdap2/dapodom.c:40-65 | a wheel made from arguments runs through exactly count indices, start + k*stride |
| Odometer.Dapodometer.Next | libdap2/dapodom.c:114-126 | the carry loop turns the position as one row-major step does, reports whether there is another point, and leaves wheel 0 past its stop when there is not |
| Odometer.Dapodometer.Count | libdap2/dapodom.c:101-111 | the current position's row-major offset |
| Odometer.Dapodometer.VarmCount | libdap2/dapodom.c:129-143 | the current position's offset under arbitrary steps, counted in strides from the start |
| Odometer.Turn | libdap2/dapodom.c:95-126 | one pass of the more/next loop moves from the k-th point of the walk to the (k+1)-th, or ends it |
| Odometer.Visit | libdap2/dapodom.c:95-126 | the more/next loop visits exactly the walked box, in order and each point once, and then stops |
| Boxes.PointsMember | libdap2/dapodom.c:95-126 | a vector is among the enumerated points iff each coordinate is an index of its wheel |
| Boxes.PointsOrdered | libdap2/dapodom.c:114-126 | the enumeration is in strictly increasing row-major order |
| Boxes.PointsCount | libdap2/dapodom.c:95-126 | the number of points is the product of the counts |
| Offsets.VarmCountsPoints | libdap2/dapodom.c:129-143 | with row-major steps the offset at the k-th point of the run is k |
| Offsets.WalkedConcat | libdap2/dapodom.c:95-126 | the walk over wheels a and non-empty wheels b is the walk over a with each point extended by every point of b |
| Readers.ReadChunks | libdap2/getvara.c:829-840 | chunked reading over the prefix before the whole dimensions delivers what the element-wise walk over all of them does, empty wheels included |
| Readers.ReadEach | libdap2/getvara.c:841-861 | element-wise reading delivers one converted element for every point that the odometer visits |
| Readers.ExtractAll | libdap2/getvara.c:820-828 | when every slice is whole one read from the origin delivers the whole selection |
| Projections.CloneProjection | libdap2/dceconstraints.c:337-450 | a clone equals its original and shares no segment, variable or projection object with anything |
| Projections.CloneSegment | libdap2/dceconstraints.c:337-450 | a cloned segment is a fresh object with the same name, slices, flags, rank and annotation |
| Projections.MergeSegment | libdap2/dceconstraints.c:283-296 | every slice both sides have becomes the composition (or stays when that fails), the others are kept or copied, the rank is the larger |
| Projections.MergeProjections | libdap2/dceconstraints.c:276-298 | all segments are merged in place, the addition is untouched, and the error code is always success |
| Projections.RestrictProjection | libdap2/constraints.c:752-797 | the first projection in the list that selects a variable and has the annotation of the request is copied and merged with it, and the request alone is copied when there is none; with no modifies clause, so nothing that exists changes |
| Restriction.MergeSliceExact | libdap2/dceconstraints.c:288-291 | a merged slice denotes the request looked up in the URL's selection iff the request starts inside it; otherwise the failure goes unnoticed and the URL's slice stays |
| Restriction.PointsReadThrough | libdap2/dceconstraints.c:276-298 | boxes whose wheels read through selections correspond point by point |
| Restriction.AcceptedInRange | libdap2/constraints.c:406-428 | a request accepted against what the URL selects, that does not wrap, is in range of the URL's slice |
| Restriction.ShiftedWalkIsInOrder | libdap2/constraints.c:800-838 | walking the shifted request over the fetched dense array meets one element per requested point, at offsets 0, 1, 2, ... |
| Restriction.AcceptedComposes | libdap2/constraints.c:406-428 | a request accepted against what the URL selects never makes the composition fail |
| Requests.BuildVaraProjection | libdap2/constraints.c:380-440 | one fresh segment for each node of the path, whose slices take start, count and stride in the order of the dimensions of all nodes; each has its node's name and annotation |
| Requests.Var2Projection | libdap2/constraints.c:687-742 | one fresh whole segment for each node of the path |
| Requests.FillVara | libdap2/constraints.c:406-428 | the slices of one segment are overwritten with the arguments from the given position on |
| Requests.ZeroCountAccepted | libdap2/getvara.c:190-203 | the wrapping argument check lets a count of zero through iff start is at least one stride in or the end wraps around into the dimension |
| Requests.AcceptedIff | libdap2/getvara.c:190-203 | a request for something that ends within 2^64 is accepted iff its last index lies in the dimension |
| Requests.ZeroCountAtOrigin | libdap2/constraints.c:409-426 | a count of zero at index 0 selects from the whole dimension, and passes the check iff size and stride together exceed 2^64 |
| Requests.ShiftProjection | libdap2/constraints.c:812-838 | every slice in use is shifted, in place, and nothing else changes |
| Requests.ShiftRenumbers | libdap2/constraints.c:800-810 | a shifted slice keeps its count and selects 0..count-1; an empty one gets the last index 2^64-1 |
| Requests.VaraIndex | libdap2/constraints.c:409-426 | its k-th index is start+k*stride, inside the constrained dimension |
| GetVara.SlicesOfRequest | libdap2/constraints.c:380-440 | the slices of all segments of the request's projection, one after the other, are those of its arguments in order |
| GetVara.RequestBox | libdap2/constraints.c:406-428 | the box of a request that does not wrap has as many points as the product of its counts |
| GetVara.WalkFits | libdap2/getvara.c:260-263 | whatever is asked for, with any slices in the URL that end inside the dimensions, the restricted slices keep the walk inside what is held, and are declared with the full sizes |
| GetVara.RequestWalk | libdap2/getvara.c:245-263 | the walk of a request is for the requested variable: along every dimension the slice of the URL's first projection with that annotation composed with the request's, or the request's where there is none, under the names of the nodes |
| Fetching.ParsedFits | libdap2/constraints.c:152-162 | a parsed range, qualified with the size that it leaves of its dimension, can be used as the URL's slice iff it ends inside the dimension |
| Fetching.RoundedDownIsUsable | libdap2/dceparse.c:150-152 | [0:2:4] of 5 has count 2 and is qualified with size 3, selects 0, 2 and 4, and all three can be requested |
| Fetching.SizeIsRestored | libdap2/dceconstraints.c:184-214 | composing a slice of the URL with an accepted request gives it the declared size of the dimension back |
| Fetching.ServedIsAnswer | libdap2/getvara.c:350-385 | what a server sends for the text of a fetch projection is an answer as Parts.ReadFetched takes it |
| Fetching.NoColumns | libdap2/dceconstraints.c:606-624 | a request of one row and no columns, accepted for a 2 by 3 array, is printed as [0][1:0] |
| Parts.ReadPart | libdap2/getvara.c:861-885 | the values that were sent for a variable, in order and converted when asked, and how far the place in memory moves on |
| Parts.MoveToPart | libdap2/getvara.c:500-560 | the descent copies the answers of all instances to memory, one after the other, each at the place where the next element goes |
| Parts.PartIsRight | libdap2/getvara.c:861-885 | what memory holds after the descent is what was requested iff the place moves on or the variable is read once |
| Parts.ReadStraight | libdap2/getvara.c:878-885 | reading straight delivers as many elements as the counts say, from the first of the array on |
| Parts.StraightIsInOrder | libdap2/getvara.c:878-885 | element k of what the slices select is element k of the array, for all k, iff they take single first indices, then a run from the first on, then all of each dimension |
| Parts.OuterWalkLost | libdap2/getvara.c:316-338 | structures 5 and 6 of an array of 7 are requested and sent, and place 5 of the two is looked for |
| Strings.ExtractString | libdap2/getvara.c:933-989 | for each point that the odometer visits, in order, memory holds the characters of its string at the places taken, and null characters behind its end |
| Strings.SliceString | libdap2/getvara.c:890-929 | character j is that at place first+j*stride of the string, or the null character behind its end, for all places below the length |
| Strings.TakenIsSelected | libdap2/getvara.c:914-921 | these are the selected characters, and are as many, iff the last selected one lies below the length |
| Strings.RunIsSelected | libdap2/getvara.c:914-921 | with stride 1 that is so iff the first character is asked for |
| Strings.TailIsMissed | libdap2/getvara.c:914-921 | of the characters 5 and 6 of strings of 8 none is read |
| Strings.ShiftedIsSelected | libdap2/getvara.c:350-363 | of whole strings that were fetched a shifted slice takes the selected characters iff the slice selects 0, 1, 2 and so on |
| Cacheable.SelectionIsCorner | libdap2/constraints.c:446-477 | slices that are whole by smaller sizes select exactly the corner of those sizes, in its own row-major order |
| Cacheable.CornerIsAll | libdap2/constraints.c:446-477 | a corner of all sizes is the whole variable in row-major order |
| Cacheable.BuildCacheNode | libdap2/cache.c:230-298 | a fetched node enters the cache, and serves its variables iff its constraint has no selections and only whole variables; it has the given size and variables |
| Cacheable.IsCacheableConstraint | libdap2/cache.c:380-392 | true iff there is no constraint, or one without selections whose projections are all whole variables |
| Cacheable.IsWholeSegmentOf | libdap2/constraints.c:446-477 | true iff the segment has rank 0 or its slices are known and all of its node's declared dimensions |
| Cacheable.WholeIff | libdap2/constraints.c:446-477 | a segment with known slices is whole iff each takes, by stride 1, as many indices as its dimension has, 0 among them |
| Cache.CountLimitKept | libdap2/cache.c:287-296 | the list is within cachecount after an insertion iff fewer nodes than that were left by the size loop |
| Cache.CountLimitExceeded | libdap2/cache.c:287-296 | with cachecount 0 an insertion still leaves one node in the list |
| Cache.HitIsMostRecent | libdap2/cache.c:34-73 | a search is answered by the prefetched node or else by the most recently used whole-variable node that holds the target, and by nothing iff there is neither |
| Cache.NCcache.IsCached | libdap2/cache.c:24-90 | the search as done on the object: an answer holds the target, and is the prefetched node, or a whole-variable node that moves to the end of the list; without one nothing changes and no node holds the target |
| Cache.NCcache.FindServing | libdap2/cache.c:52-64 | the backward scan stops at the latest whole-variable node whose list contains the target |
| Cache.SearchFinds | libdap2/cache.c:34-73 | what a search finds holds the target and is taken to the end of the list, and a search that finds nothing has met no node with the target |
| Cache.NCcache.MakeRoom | libdap2/cache.c:275-295 | the two eviction loops keep cachesize equal to the sum and remove exactly the prefix of the list that they should |
| Cache.NCcache.InsertNode | libdap2/cache.c:271-298 | an insertion as done on the object, keeping the accounts; the latest node has the given size and variables |
| Cache.NCcache.SetPrefetch | libdap2/cache.c:160-175 | a prefetch result is kept apart from the list, with its variables; the list stays as it is |
| Printer.DumpSlice | libdap2/dceconstraints.c:606-624 | one slice in its shortest form, with last computed anew from first and length |
| Printer.DumpSegment | libdap2/dceconstraints.c:626-641 | the name, and the slices in use unless all are known to be whole |
| Printer.SegmentsToBuffer | libdap2/dceconstraints.c:745-757 | a list is printed in order with a separator between its members |
| Printer.BuildProjectionString | libdap2/dceconstraints.c:304-313 | the printed projections, with commas between them and dots between segments |
| Lexer.DCElexstate.Lex | libdap2/dcelex.c:38-158 | the scanning loop returns the first token of the rest of the input and leaves what follows it; the rows of Notation say which token that is |
| Parser.RangeAction | libdap2/dceparse.c:123-158 | the slice of a range as parsed, with illegal ranges reported and built all the same |
| Parser.SegmentAction | libdap2/dceparse.c:91-114 | the segment of a name and its ranges, with slices defined iff there are ranges |
| Notation.RunIsRead | libdap2/dceparse.c:123-158 | name[x:z] is read as a slice from x to z, and is an error iff z lies before x |
| Notation.IndexIsRead | libdap2/dceparse.c:123-158 | name[x] is read as the slice of x alone |
| Notation.ListIsRead | libdap2/dcetab.c:1274-1588 | a.b,c is two projections, the first of two segments, with or without a question mark before it |
| Notation.ScanIs | libdap2/dceparse.c:131-142 | a number is read as its value, or the largest of the type when it is too large; a minus sign negates modulo 2^64 |
| Notation.IdentifierIff | libdap2/dcelex.c:125-132 | the names of the round trip are exactly the texts without escapes that begin with no digit or sign and are lexed as one word |
| Notation.NumberIsRead | libdap2/dcelex.c:91-115 | digits with or without a sign are one number up to a bracket, colon or comma |
| Notation.FloatIsRead | libdap2/dcelex.c:91-115 | digits, a dot, a fraction and an exponent are one number |
| Notation.FunnyWordIsRead | libdap2/dcelex.c:112-124 | digits before a letter are a word of their own |
| Notation.MarkIsRead | libdap2/dcelex.c:133-138 | any other printed character is a token of its own |
| Notation.BlankIsSkipped | libdap2/dcelex.c:51-51 | blanks, control characters and what is beyond ASCII are skipped |
| Notation.OneTwenty | libdap2/dceconstraints.c:606-624 | one hundred and twenty is printed and read as 120 |
| RoundTrip.LexProjections | libdap2/dcelex.c:38-158 | the printed text lexes to exactly the printed tokens |
| RoundTrip.ReadBackKeepsIndices | libdap2/dceparse.c:123-158 | a printed slice that meets the header's invariant and ends below 2^64 reads back to the same indices |
| RoundTrip.ParsedCount | libdap2/dceparse.c:150-152 | a parsed slice meets the header's invariant iff its stride divides its length |
| RoundTrip.ReprintKeepsIndices | libdap2/dceconstraints.c:606-624 | a parsed slice printed again keeps its indices iff its length is not strictly between one and two strides |
| RoundTrip.BareIffWhole | libdap2/dceconstraints.c:626-641 | a segment prints as its bare name iff it has rank 0, or its slices are known and each has first 0, stride 1 and the declared length |
| RoundTrip.QualifySizes | libdap2/constraints.c:145-166 | a segment gets its rank and declared sizes, and whole slices where it had none |
| RoundTrip.IndexIsLost | libdap2/dceconstraints.c:606-624 | [0:3:3], which selects 0 and 3, is printed again as [0] |
| Names.CollectNodePath | libdap2/daputil.c:240-292 | the node and its containers, with the dataset or up to it |
| Names.MatchSuffix | libdap2/constraints.c:334-374 | true iff the segments match the end of the path in name and, where given, rank |
| Names.MatchPartialName | libdap2/constraints.c:231-331 | the node found, or the error, is the resolution of the matches |
| Names.ChooseShortest | libdap2/constraints.c:288-316 | the loop finds the first of the shortest paths and the value of the tie counter |
| Names.ResolvedIsShortest | libdap2/constraints.c:288-316 | a result is the first of the shortest matches |
| Names.UniqueShortestResolves | libdap2/constraints.c:288-316 | a match shorter than all the others is always the result |
| Names.TieCountIs | libdap2/constraints.c:293-309 | what the tie counter counts: the shortest matches, less one if the first match is among them |
| Names.CompleteSegments | libdap2/constraints.c:174-196 | segments for the missing prefix are inserted in front, fresh, and every segment is annotated with its very node; the given segments stay the same objects; those put in have the node's name and rank and no slices, the others keep theirs |
| Names.TieNotReported | libdap2/constraints.c:284-316 | x in structure a and x in structure b: the name x resolves to the field of a |
| Names.SoleNameResolves | libdap2/constraints.c:231-374 | a name that one node alone has resolves to it iff it is a sequence, a structure, a grid or an atomic variable, and the rank given is none or the node's, a sequence's being one more |
| Fixing.RemoveDuplicates | libdap2/constraints.c:535-556 | step 1: a projection is removed iff an earlier one is for the same variable |
| Fixing.RemoveContainers | libdap2/constraints.c:558-582 | step 2: every container lies in the path collected for it, so every container is removed |
| Fixing.CaptureContainers | libdap2/constraints.c:584-602 | step 3: the containers left are captured in order and their entries emptied; all others stay |
| Fixing.Compact | libdap2/constraints.c:618-623 | the empty entries, and no others, are removed, keeping the order |
| Fixing.WhatRemains | libdap2/constraints.c:524-631 | a key remains iff it is in the list and is not a container's: it is a function call's or an atomic variable's or a dimension's |
| Fixing.KeptIff | libdap2/constraints.c:524-631 | a position is kept iff it holds a call, or an atomic variable or dimension that no earlier position holds |
| Fixing.AskedForRemains | libdap2/constraints.c:512-523 | a leaf asked for, itself or through a container, remains iff no projected container encloses it or it was projected itself |
| Fixing.LoneStructureVanishes | libdap2/constraints.c:512-523 | a list of one structure becomes empty, though all its fields were asked for |
| Sequences.SequenceCheckR | libdap2/cdf.c:306-348 | the walk over a fresh tree leaves the marks, and returns the code, that the recursive specification gives |
| Sequences.UsableIffHoldsVar | libdap2/cdf.c:315-335 | a top sequence is reported usable iff some place below it holds a variable with no sequence in between |
| Sequences.SequenceOfVar | libdap2/cdf.c:336-338 | each variable the walk gets to is tied to its nearest enclosing sequence, and no other variable is tied |
| DimSets.DefineDimsetPlus | libdap2/cdf.c:743-767 | the declared dimensions in order, behind them the string dimension if there is one, and then the sequence dimension if there is one |
| DimSets.CloneDimset | libdap2/cdf.c:728-740 | fresh, distinct clones of the same sizes, owned by the variable and listed in the tree |
| DimSets.DefinedAt | libdap2/cdf.c:769-794 | at every place the inherited dimensions are clones owned by the node, of the sizes of the own dimensions of all nodes above it in order |
| DimSets.OwnAt | libdap2/cdf.c:743-794 | after the pass every node's own set is its declared, string and sequence dimensions in this order, and its whole set ends with these |
| DimSets.SizesAlongPath | libdap2/cdf.c:876-904 | the sizes of dimsetall are the concatenation of the dimsetplus sizes along the path from the root |
| Restruct.RestructR | libdap2/cdf.c:434-504 | the recursive match returns the plan, or fails, exactly as the specification does |
| Restruct.FindGridField | libdap2/cdf.c:476-497 | the first matching field over the grids in order |
| Restruct.GridFieldFound | libdap2/cdf.c:476-497 | the field that is taken is the first that matches in the first grid that has one within the bound |
| Restruct.GridFieldExists | libdap2/cdf.c:476-497 | a field is found iff a matching one stands at a position below the number of the parent's children: the inner loop has the parent's bound |
| Restruct.PlanFits | libdap2/cdf.c:434-504 | a plan gives every node a counterpart that it matches, below its parent's counterpart, or in a grid there when it is to be repaired |
| Restruct.MapOutOfReach | libdap2/cdf.c:476-497 | a dataset of one grid: the map alone cannot be placed, being the second field while the dataset has one child |
| Repair.StructWrap | libdap2/cdf.c:532-549 | a wrapper replaces the node among its parent's children, the node hangs below it, and no other link changes |
| Repair.FindIn | libdap2/cdf.c:551-561 | the position of the child, or -1 iff it is not a child |
| Repair.MakeNewStruct | libdap2/cdf.c:563-573 | a fresh virtual structure with the grid's name, around the node |
| Repair.RepairGrids | libdap2/cdf.c:508-530 | the repairs are carried out in order, one new node for each |
| Repair.RepairedMutual | libdap2/cdf.c:532-573 | parent and child links stay mutual through any number of repairs |
| Repair.RepairedRewired | libdap2/cdf.c:532-573 | every link is as it was or leads through one new node with a single child, a node of the tree |
| Repair.RepairedFit | libdap2/cdf.c:508-530 | after any number of repairs every node fits its counterpart but for those still to be repaired |
| RepairedTree.MapIsFit | libdap2/cdf.c:597-653 | on a repaired tree the map sends each node to the last sibling of the repair's counterpart that matches the node |
| RepairedTree.BareFieldsAbort | libdap2/cdf.c:630-630 | a dataset of a grid and a variable, answered by the bare array, map and variable: every node can be placed, but the root is wider than the pattern |
| RepairedTree.LastIsCounterpart | libdap2/cdf.c:634-645 | that sibling is the counterpart itself iff no later sibling matches |
| RepairedTree.TwinsDiffer | oc2/dapparse.c:307-324 | in a grid whose array and map are alike the repair takes the array and the map of trees the map |
| Alignment.AssignMerges | libdap2/cdf.c:634-645 | the map over given bases is those bases overwritten by the map over none |
| Alignment.CounterpartsAlign | libdap2/cdf.c:634-645 | the counterpart of a child matches the child and is a child of its parent's counterpart |

## Left out

- Numbers: `size_t` arithmetic wraps where a request's arguments are checked and made into slices, and in
  subtractions; the sums and products of composition, of offsets and of segment sizes are unbounded. The printed
  numbers of the round trip are below 2^64.
- Odometer.Dapodometer.FromSegment: `last+1` does not wrap, so a slice whose last index is 2^64-1, as shifting an
  empty slice produces, is not followed into the odometer.
- Odometer.Dapodometer.New: for strides of at least 1, as `libdap2/getvara.c:194` demands.
- `DCEsegment.slices` is a sequence-valued field: the array is embedded in the struct, so no aliasing is lost, but
  element updates replace the sequence. `NClist` objects are sequences, and the repair list is a list of pairs.
- Fields of tree nodes that only tree construction sets (type, name, declared dimensions, sizes) are constants;
  truncation of names to NC_MAX_NAME, external types, and nodes without a name are not modelled.
- Trees are finite and no node occurs twice in them. Grid repair is for trees whose atomic nodes are leaves and whose
  only dataset is the root, and for patterns whose grids have no dimensions and hold atomic fields.
- The other assertions of the modelled code follow from the preconditions of the methods, except that the dimension
  sets of the nodes below the root have not been defined before (`libdap2/cdf.c:896-898`).
- RepairedTree.RepairAndMap: in exact terms of the two given trees, and with the bases, for patterns whose namesakes
  among siblings are leaves, as the duplicate checks leave them; for other patterns the condition is stated of the
  repaired tree.
- Readers.Extract: for segments of positive rank, with whole variables in the cache; scalars and server-side subsets
  are read by other branches (`Nested.ReadLeaf`, `Parts.ReadPart`). That a whole slice selects something, counts right
  and finds all of its dimension held is required of the slices; `GetVara.WalkFits` proves it of all accepted
  requests.
- Nested.MoveTo: sequences and their records on the path are not modelled; strings at its end are (`Strings`), on
  their own and not below arrays of structures. Virtual nodes, which stand for grids in the repaired tree, are stepped
  over in the original and are not on the path here.
- GetVara.ReadVara: with slices of the URL along the same path that end inside the dimensions. The data layer holds
  what is found below the nodes of the path only.
- GetVara.FetchedPart: for requests that ask for something along every dimension; `Fetching.TextIsLegal` says what
  becomes of others.
- Fetching.FetchedText: for the same requests. String and sequence dimensions, which are taken off a fetch projection
  first, are not among the dimensions. That a server reads a text as the client's own parser does is part of the
  model.
- Parts.ReadFetched: for answers that the client does not take for whole variables; `GetVara.ReadVara` is about those.
  The caller's memory is the sequence of what has been written from its beginning on.
- Parts.OuterWalkStays: about places only; the method that reads such an answer is not a separate one here.
- Strings.SliceString: the expansion of escapes in a string comes first and is left out, and so is the wrapping of the
  loop's index, an `unsigned int`.
- Fetching.TextIsLegal: for strides whose product, with one more step, is at most 2^64.
- RoundTrip.PrintThenParse: for names that hold no URL escape; the decoder of escapes is not part of this model.
- Lexer.DCElexstate.Lex: string constants, and numbers that are followed by a dot, give a token that ends the reading.
- Parser.RangeAction: numbers too large saturate, as in the C library. The grammar of projections is given by
  functions on tokens; the automaton of the generated parser, functions and selections are left out.
- Printer.BuildProjectionString: verbose printing, constants, functions and selections.
- Cache.NCcache.InsertNode: the fetch that makes a node, and the choice of what to prefetch; the size and the
  variables of a node are arguments.
- Requests.BuildVaraProjection: the string dimension of the last node is not dropped here; the sizes given are those
  that count.
- DimSets.DefineDimsetsR: `dimsettrans`, which follows the same scheme, and the flags of dimensions other than the
  clone flag.
- Fixing.FixProjections: the expansion of containers, which is never reached, and the warning about differing slices.
- `dcemergeprojectionlists`, the transposing and comparing of paths, attribute merging, type conversion, dump code,
  allocation failure and freeing, and everything that talks to the network.
