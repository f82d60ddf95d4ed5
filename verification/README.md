# SlabJson: a verified model

SlabJson keeps JSON documents in one caller-owned block of at most 65535 bytes. Nodes of 24 bytes grow from its front,
string bytes from its back, and 16-bit links join the nodes into a forest. On top of this allocator stand a transactional
recursive-descent parser, a serializer that walks the links without a stack, a cloner that does the same, attaching and
detaching with a cycle check, and containers whose `add` operations remember the first error.

This project models that library and proves what its parts promise each other:

- any printed tree is parsed back, at any indent, exactly when it nests within the limit, fits, and the conversion accepts
  its doubles; it comes back as it was up to the kind of a number exactly when the conversion gives back its doubles, always
  if it has none; the exact condition under which even the kinds survive is proved as well;
- parsing succeeds exactly when the text is derivable in the grammar of RFC 8259 (with surrogates paired, within the depth
  limit and the 64-bit ranges) and 24 bytes a node plus all decoded string bytes fit; it then uses exactly that much, and otherwise nothing changes;
- the stackless serializer emits exactly the text of a recursive printer, from any node, also one inside a larger tree; every
  line of it starts where a scan of the text says it should;
- the stackless cloner builds exactly the layout of a recursive copy, in preorder, also inside the slab it copies from;
- every run of operations, successful or failing, keeps the links an acyclic forest whose chains list exactly the children,
  keeps strings disjoint and UTF-8, and keeps the two ends of the memory apart.

## How the proof is organised

*Values and texts.* `Json.dfy` has the abstract value: objects are ordered and keep duplicate keys; a double is known by its
class and its shortest decimal text. `Utf8.dfy`, `Strings.dfy`, `Numbers.dfy` and `Grammar.dfy` give RFC 3629 and sections 2
to 7 of RFC 8259 as derivations, the parser's way of reading as functions, and the proof that the two agree. One narrowing
is the library's: section 7 also derives escapes of lone surrogates, which the parser refuses and the derivations exclude. `Text.dfy` is
the recursive printer, `RoundTrip.dfy` the proof that its output reads back, `Pretty.dfy` the proof that its lines are where a
scan of the text, which knows neither the value nor the printer, expects them.

*Slab contents.* `Forest.dfy` has the forest with one sequence of children a node and a rank for acyclicity; parent chains
are not ordered by id, because any root may be attached below a later node. `Dom.dfy` adds string bytes, the invariant of
every reachable slab and what a node denotes. `Ops.dfy` has the primitive changes (a string, a node, a link, an unlink) and
what each does to the invariant and to every tree. `Build.dfy` and `Clone.dfy` are the layouts of the parser and the cloner,
`Copying.dfy` what is left of a copy in the middle of it, `Layout.dfy` the preorder, `Accounting.dfy` the proof that trees
never claim more than was handed out, and hence the bound on output sizes. `Spec.dfy` says what each operation may do.

*The code.* `Links.dfy` ties the four stored links of a node to the children sequences. `Slab.dfy` is the class with its
arrays and counters; `Containers.dfy`, `Serialize.dfy`, `Parse.dfy` and `CjsonCompat.dfy` are the algorithms as methods with
loops, each proved to do what the specification says.

*Laws.* `Runs.dfy` is about whole lives of a slab, `Answers.dfy` about what a caller learns from one answer,
`Laws.dfy` about parsing, printing and copying together.

A slab's `Contents()` consists of its first `nodeCount` nodes and its last `stringBytesUsed` bytes. That is what "unchanged"
means everywhere: a rollback restores counters, not bytes. The error recorded in a slab is consulted by the `add` operations
only, as in the library.

Inputs the library does not define are parameters: how decimal text becomes a double (`FloatReader`, any partial function),
which text of at most 64 bytes a double has (the round trip asks that it is a number of section 6 of RFC 8259), and whether the input of a parse overlaps the slab. Buffers are arrays with a length; an output buffer overlaps a slab when it is
the slab's own storage array. Two different slabs are assumed not to share storage.

## Model

| member | source | states |
|---|---|---|
| `Utf8.SequenceLength` | include/slabjson/detail/utf8.hpp:12-54 | accepts exactly when a character of RFC 3629 starts at the offset, and gives its length; otherwise the exact byte to blame |
| `Utf8.InvalidOffset` | include/slabjson/detail/utf8.hpp:56-73 | nothing is returned if and only if the bytes are `UTF8-octets` of section 4 of RFC 3629; otherwise the byte to blame at the first place where no character starts |
| `Utf8.ValidIffOctets` | include/slabjson/detail/utf8.hpp:56-73 | the greedy cut into characters consumes everything exactly when some cut exists |
| `Utf8.EncodeIsChar` | src/parse.cpp:784-838 | every non-surrogate scalar is encoded as a character of the RFC, from which the scalar can be read back |
| `Utf8.CharIsEncoding` | src/parse.cpp:784-838 | every character of the RFC is the encoding of exactly the scalar it stands for |
| `Utf8.UncheckedLengthAgrees` | src/parse.cpp:768-782 | the lead-byte table agrees with the validator on accepted characters |
| `Text.EscapeFixesPlain` | src/serialize.cpp:454-461 | a string whose flag is 0 is its own escaped form, so the fast path emits what the escaping loop would |
| `Text.FlagsDecided` | src/slab.cpp:309-320 | the flag of a string is 0 if and only if escaping leaves it as it is |
| `Text.EscapeAlphabet` | src/serialize.cpp:440-532 | escaped strings hold no control characters, and what escaping brings in is backslashes, quotes, its letters and lower-case digits |
| `Text.IntegerTextLength` | src/serialize.cpp:394-406 | the decimal text of any 64-bit integer fits the 64-byte buffer |
| `Text.PrintBound` | src/serialize.cpp:17-57 | every node pays for one token, two line breaks and punctuation and every string byte for six: the bound on printed sizes, at any indent |
| `Strings.StringSound` | src/parse.cpp:420-547 | whatever the string reader accepts is a string of section 7 of RFC 8259 with surrogates paired, up to its closing quote, with that decoding |
| `Strings.StringComplete` | src/parse.cpp:420-547 | every string of section 7 of RFC 8259 with surrogates paired is accepted, to its closing quote, with its decoding |
| `Strings.ReadStringValid` | src/parse.cpp:420-547 | decoded strings are valid UTF-8 |
| `Strings.UnitSpells` | src/parse.cpp:441-534 | whatever is accepted inside a string spells one character: itself, a letter behind a backslash, four hexadecimal digits of either case, or the surrogate pair of section 2.1 of RFC 2781 |
| `Strings.SpellingUnit` | src/parse.cpp:441-534 | and every such spelling of any Unicode scalar is accepted, denoting the UTF-8 encoding of that scalar |
| `Strings.SpellingRead` | src/parse.cpp:549-624 | wherever one stands in a string, it is read as that encoding, and reading goes on behind it |
| `Strings.QuotedReadsBack` | src/serialize.cpp:440-532 | any valid UTF-8 string, escaped and quoted, is read back from its opening quote as the same bytes |
| `Strings.SpellShortest` | src/serialize.cpp:440-532 | no spelling of the same string is shorter than the printed one |
| `Numbers.NumberSound` | src/parse.cpp:130-191 | whatever number is scanned is one of section 6 of RFC 8259, and it is floating-point exactly if it has a fraction or an exponent |
| `Numbers.NumberComplete` | src/parse.cpp:130-191 | every number of the grammar is scanned to its end when nothing behind it could continue it |
| `Numbers.SpellIntegerRight` | src/parse.cpp:196-223 | a printed 64-bit integer is a number of the grammar and converts back to the same integer, signed whenever it fits |
| `Numbers.DigitsPlaces` | src/parse.cpp:193-223 | the value of a run of digits is the sum of its digits times the powers of ten of their places |
| `Numbers.IntegerTextUnique` | src/serialize.cpp:389-419 | an integer has no other text without fraction and exponent than the printed one, but for -0 |
| `Numbers.NegativeZeroText` | src/serialize.cpp:412-419 | minus zero is printed with a sign, marked as a double, and without any digit but zero |
| `Grammar.ReadsTheGrammar` | src/parse.cpp:30-418 | the reader accepts exactly the derivable texts, within the depth and whitespace options, and gives them their meaning |
| `Grammar.DerivationRead` | src/parse.cpp:30-418 | a text is read as the meaning of any of its derivations, and refused if that has none; so all derivations of a text mean the same |
| `Grammar.NumberMeaning` | src/parse.cpp:193-241 | a number with fraction or exponent denotes exactly the finite double its text converts to; any other exactly the integer it spells, if it fits 64 bits, signed if and only if it fits them signed |
| `Grammar.LiteralsRead` | src/parse.cpp:77-104 | null, true, false and the empty containers, byte by byte, with white space around or inside them, are read as what they say |
| `RoundTrip.PrintedReadsBack` | src/serialize.cpp:199-387 | any storable value whose doubles are spelled as numbers, printed in any format, is read back with its doubles converted, exactly if it nests at most as deep as allowed |
| `RoundTrip.BracketsRead` | src/parse.cpp:263-267 | n pairs of brackets inside each other are read if and only if n is at most the depth limit |
| `RoundTrip.RereadDecided` | src/parse.cpp:229-241 | reading back succeeds if and only if the conversion accepts the text of every double |
| `RoundTrip.RereadKept` | src/parse.cpp:196-241 | it gives the value itself, up to number kinds, if and only if the conversion gives back every double |
| `RoundTrip.MeaningShape` | src/parse.cpp:263-388 | whatever a text denotes can be stored, and nests exactly as deep as its derivation |
| `Pretty.PrintLaid` | src/serialize.cpp:257-384 | a scan of the printed text that skips strings finds: a line behind every comma and every opening bracket of a non-empty container and before its closing bracket, indented by exactly the indent times the brackets open there; one blank behind every colon; nothing white anywhere else, and nothing at all if compact |
| `Forest.AttachForest` | src/slab.cpp:382-395 | linking a root under a container that is not below it keeps the forest acyclic and the links consistent |
| `Forest.AttachCycle` | src/slab.cpp:366-376 | linking a node under itself or below itself always makes a cycle |
| `Forest.DetachForest` | src/object.cpp:322-335 | unlinking a child keeps the forest |
| `Links.AttachPicture` | src/slab.cpp:382-395 | which of the stored links of which nodes differ when the children of a container get one more |
| `Links.DetachPicture` | src/cjson_compat.cpp:136-168 | which of the stored links of which nodes differ when one child leaves |
| `Links.NextOfKid` | src/array.cpp:180-190 | following next_sibling visits the children in order and ends with the invalid id |
| `Links.PrefixPicture` | src/slab.cpp:402-406 | dropping later nodes leaves the stored links of the earlier ones exactly as they were |
| `Dom.ViewStable` | src/slab.cpp:438-449 | no later allocation changes what a live string reference shows |
| `Dom.ExtendsDenotes` | src/slab.cpp:226-296 | nor what any earlier tree denotes |
| `Ops.AddStringRight` | src/slab.cpp:258-296 | an allocated string is live, shows the copied bytes, overlaps no other string, and keeps the invariant |
| `Ops.AttachInv` | src/slab.cpp:382-395 | an accepted link keeps the invariant |
| `Ops.AttachAppends` | src/slab.cpp:382-395 | the members of the container become the old ones and the new child under its key |
| `Ops.AttachFrame` | src/slab.cpp:382-395 | every tree that does not contain the container keeps its value |
| `Ops.DetachInv` | src/object.cpp:322-335 | an unlink keeps the invariant |
| `Ops.DetachRemoves` | src/object.cpp:322-335 | the members become the old ones without the one taken out |
| `Ops.DetachFrame` | src/object.cpp:322-335 | every tree that does not contain the container keeps its value |
| `Build.PlantRight` | src/parse.cpp:244-418 | the parser's layout of a value that fits keeps the invariant, denotes the value, and takes exactly its nodes and bytes |
| `Clone.CloneTreeRight` | src/cjson_compat.cpp:173-300 | the cloner's layout of a tree that fits is a new detached tree for the same value, of exactly its size |
| `Copying.CloneFromKid` | src/cjson_compat.cpp:214-294 | copying one child and going on from it ends in the state the recursive copy ends in |
| `Copying.CloneTreeSize` | src/cjson_compat.cpp:326-369 | a deep copy adds exactly the footprint of the value, whether or not it fits |
| `Layout.PlantLaidOut` | src/parse.cpp:244-388 | a parsed tree is one block of consecutive ids in preorder |
| `Layout.CloneLaidOut` | src/cjson_compat.cpp:173-300 | a deep copy is one block of consecutive ids in preorder |
| `Accounting.FootprintUsed` | src/slab.cpp:78-91 | the footprint of any tree is at most the bytes in use: no node and no byte is counted twice |
| `Accounting.DenoteStorable` | src/slab.cpp:93-215 | every tree of a slab has integers in range, finite floats and valid UTF-8 |
| `Accounting.OutputBound` | src/serialize.cpp:17-57 | the text of any tree at any indent is shorter than 2^32 - 1 bytes |
| `Spec.AttachmentDecided` | src/slab.cpp:338-380 | for a live container and a live detached child of the slab, the child is accepted if and only if linking leaves the forest acyclic |
| `Spec.LinkedRight` | src/object.cpp:70-93 | an accepted add keeps the invariant and appends exactly the new member |
| `Spec.LinkedFrame` | src/object.cpp:70-93 | an accepted add leaves every tree without the container as it was |
| `Spec.BuiltDecided` | src/detail/container_builder.hpp:22-31 | a value just created is refused only for a key that is not UTF-8 or does not fit |
| `Spec.MatchesDecided` | src/cjson_compat.cpp:12-34 | two keys match without case if and only if at every position stand the same bytes or the two cases of one ASCII letter |
| `Spec.FirstMatch` | src/cjson_compat.cpp:79-103 | the first member whose key matches, exactly or up to ASCII case, or the number of members |
| `Spec.UnlinkedRight` | src/cjson_compat.cpp:136-168 | after an unlink the members lack exactly that child, which is a root with its old value |
| `Slabs.Slab.constructor` | src/slab.cpp:19-47 | a new slab is empty, capped at 65535 bytes, and unusable if not even one node fits |
| `Slabs.Slab.Reset` | src/slab.cpp:67-76 | nodes, strings and error are gone and the generation is the next one, never 0 |
| `Slabs.Slab.ClearError` | src/slab.cpp:62-65 | only the error changes |
| `Slabs.Slab.RemainingBytes` | src/slab.cpp:88-91 | capacity less 24 bytes a node and the string bytes |
| `Slabs.Slab.AllocateNode` | src/slab.cpp:217-242 | succeeds exactly when the slab is valid and 24 bytes are left; then one blank root is added |
| `Slabs.Slab.AllocateString` | src/slab.cpp:272-296 | succeeds exactly when the bytes are left; offset and length fit 16 bits |
| `Slabs.Slab.CopyString` | src/slab.cpp:258-270 | the bytes are added in front of all earlier strings, or nothing changes |
| `Slabs.Slab.StringFlags` | src/slab.cpp:309-320 | 1 exactly if some byte must be escaped |
| `Slabs.Slab.StoreString` | src/slab.cpp:244-256 | succeeds exactly for valid UTF-8 that fits, with the right flag |
| `Slabs.Slab.MakeScalar` | src/slab.cpp:93-158 | null, boolean and integer nodes: planted exactly if a node fits, otherwise nothing changes |
| `Slabs.Slab.MakeFloat` | src/slab.cpp:114-130 | the same for doubles, non-finite ones being refused first |
| `Slabs.Slab.MakeString` | src/slab.cpp:160-197 | node and bytes are both allocated or neither, with no rollback; the code of a failure is that of the first failing check |
| `Slabs.Slab.MakeContainer` | src/slab.cpp:199-215 | an empty object or array, exactly if a node fits |
| `Slabs.Slab.ValidateAttachment` | src/slab.cpp:338-380 | the answer for every parent and child, in the order of the checks; the internal error is unreachable |
| `Slabs.Slab.RejectCycle` | src/slab.cpp:366-379 | the walk to the root ends, and refuses exactly the ancestors of the container |
| `Slabs.Slab.AppendChild` | src/slab.cpp:382-395 | the pointer writes add the child behind all others, under its key, and do nothing else |
| `Slabs.Slab.Unlink` | src/cjson_compat.cpp:136-168 | the pointer writes take exactly that child out of the chain and clear its key |
| `Slabs.Slab.Rollback` | src/slab.cpp:402-406 | restoring the counters restores the contents of the checkpoint, as long as only additions were made since; the error stays |
| `Slabs.Slab.RecordError` | src/slab.cpp:466-472 | the first error is kept |
| `Slabs.Slab.ViewString` | src/slab.cpp:438-449 | a live reference shows its bytes |
| `Containers.Status` | src/object.cpp:43-56 | the recorded error first, then whether the handle is a live container of its type |
| `Containers.Add` | src/object.cpp:70-93 | refused with the recorded error or the first failing check, changing nothing but the error; otherwise key and link are added |
| `Containers.AddNew` | src/detail/container_builder.hpp:10-37 | created and attached, or taken back with nothing changed but the error, whose code is that of the first failing step |
| `Containers.Locate` | src/object.cpp:312-341 | the walk along the siblings finds the first matching member and the one before it |
| `Containers.LocateAt` | src/cjson_compat.cpp:49-64 | the walk finds the child at a position and the one before it |
| `Containers.Find` | src/object.cpp:173-194 | the first member with the key, none exactly if there is none |
| `Containers.Remove` | src/object.cpp:302-344 | the first member with the key leaves, or nothing changes |
| `Containers.ElementAt` | src/array.cpp:147-170 | the element at that position, none exactly beyond the end |
| `Containers.Size` | src/array.cpp:172-192 | the number of members, 0 for stale handles |
| `Serialize.Writer.Append` | src/serialize.cpp:17-152 | the counting writer only counts, the checked one refuses exactly what does not fit and then writes nothing, the unchecked one stays in bounds |
| `Serialize.WriteString` | src/serialize.cpp:440-532 | emits exactly the quoted, escaped string; invalid UTF-8 is unreachable |
| `Serialize.WriteNumber` | src/serialize.cpp:389-438 | emits exactly the number's text; the non-finite branch is unreachable |
| `Serialize.WriteIndent` | src/serialize.cpp:556-569 | emits depth times indent blanks; the multiplication never overflows |
| `Serialize.WritePrefix` | src/serialize.cpp:534-554 | emits exactly the key, the colon and the pretty printer's blank |
| `Serialize.Enter` | src/serialize.cpp:257-292 | what is still to be printed, when the walk goes down to the first child |
| `Serialize.Sideways` | src/serialize.cpp:330-364 | the same when it goes over to the next sibling |
| `Serialize.Leave` | src/serialize.cpp:366-384 | the same when it goes back up behind the last child |
| `Serialize.Advance` | src/serialize.cpp:304-386 | the inner loop ends at the root with nothing left to print, or at the next node with its text next; internal errors are unreachable |
| `Serialize.Write` | src/serialize.cpp:199-387 | the walk ends and emits exactly the recursive printer's text, or fails for capacity only when that text does not fit |
| `Serialize.FullTextBound` | src/serialize.cpp:17-57 | no text of a slab reaches the maximum of a 32-bit size |
| `Serialize.Measure` | src/serialize.cpp:168-172 | the exact length of the text; never an error for a live handle |
| `Serialize.SerializePartial` | src/serialize.cpp:174-183 | succeeds exactly if the text fits into a buffer that is not the slab's storage; otherwise a prefix of it is written and the rest of the buffer untouched |
| `Serialize.WritePrevalidated` | src/serialize.cpp:185-194 | the unchecked, unvalidated pass writes exactly the measured text |
| `Serialize.Serialize` | src/serialize.cpp:608-642 | all or nothing: succeeds exactly for a live handle, a large enough and disjoint buffer; every failure leaves the buffer as it was |
| `Parse.Parser.ParseHex4` | src/parse.cpp:626-648 | four hexadecimal digits and their value; otherwise the first byte that is not one, or the start when fewer than four bytes are left |
| `Parse.Parser.ScanUnit` | src/parse.cpp:441-534 | one character or escape: accepted exactly if readable, with its decoded length and whether it needs escaping |
| `Parse.Parser.ScanString` | src/parse.cpp:420-547 | end, decoded length, escape flag and raw-copy condition are those of the decoded string |
| `Parse.Parser.EncodeUtf8` | src/parse.cpp:784-838 | writes exactly the encoding of the code point, in place |
| `Parse.Parser.DecodeString` | src/parse.cpp:549-624 | writes exactly the decoded string into exactly the bytes that were counted |
| `Parse.Parser.ParseString` | src/parse.cpp:390-418 | the decoded string is allocated with its flag, or nothing changes |
| `Parse.Parser.ConsumeLiteral` | src/parse.cpp:672-691 | succeeds exactly if the literal stands at the cursor; otherwise the first mismatch, or the end of the input |
| `Parse.Parser.ScanNumber` | src/parse.cpp:130-191 | stops where the grammar's number ends and knows whether it is floating-point |
| `Parse.Parser.ConvertNumber` | src/parse.cpp:193-241 | signed if it fits, then unsigned, finite floats only |
| `Parse.Parser.ParseNumber` | src/parse.cpp:130-242 | planted exactly if the text is a number in range and a node fits |
| `Parse.Parser.ParseStringValue` | src/parse.cpp:244-261 | planted exactly if the text is a string and node and bytes fit |
| `Parse.Parser.ParseMember` | src/parse.cpp:335-367 | key, value and link of one member: added exactly if readable and fitting |
| `Parse.Parser.ParseMembers` | src/parse.cpp:334-387 | the loop over all members: the container is filled exactly with what the text lists, or could not fit |
| `Parse.Parser.ParseContainer` | src/parse.cpp:263-388 | planted exactly if readable within the depth limit and fitting |
| `Parse.Parser.ParseValue` | src/parse.cpp:77-104 | the same for any value; a failure leaves everything that was there, and is about memory if the text was right |
| `Parse.Parser.Run` | src/parse.cpp:30-62 | all of the text or nothing: success exactly if it reads as a document and fits, otherwise the contents are as before; error offsets stay inside the input |
| `Containers.AsciiCaseEqual` | src/cjson_compat.cpp:20-34 | equal length and equal bytes up to the case of ASCII letters |
| `CjsonCompat.DetachFromArray` | src/cjson_compat.cpp:40-66 | the element at that position becomes a root, or nothing changes |
| `CjsonCompat.DetachFromObject` | src/cjson_compat.cpp:68-104 | the first member with a matching key becomes a root, or nothing changes |
| `CjsonCompat.LinkFirstChild` | src/cjson_compat.cpp:303-312 | the writes make the copy the only child |
| `CjsonCompat.LinkNextSibling` | src/cjson_compat.cpp:314-324 | the writes put the copy behind the former last child |
| `CjsonCompat.CloneOne` | src/cjson_compat.cpp:326-369 | one node with its own string and key is added exactly if they fit, reading a source that may be the growing slab itself |
| `CjsonCompat.CopyLinked` | src/cjson_compat.cpp:214-236 | a child is copied and linked, leading to the same end as the recursive copy, or the whole copy cannot fit |
| `CjsonCompat.CopyAdvance` | src/cjson_compat.cpp:242-298 | the inner loop ends with the copy complete or at the next sibling |
| `CjsonCompat.Duplicate` | src/cjson_compat.cpp:173-300 | terminates; the copy is planted exactly if it fits, otherwise the destination is as before |
| `CjsonCompat.PrintTerminated` | src/cjson_compat.cpp:599-646 | the text and a NUL behind it exactly if both fit, otherwise the buffer is as before |
| `Runs.StepKeeps` | src/slab.cpp:53-76 | every operation keeps the invariant; all but a reset keep every node and string; failures change nothing but the error |
| `Runs.RunInv` | src/slab.cpp:217-406 | the invariant holds after every operation of every run |
| `Runs.Memory` | src/slab.cpp:226-306 | in every such state nodes and strings do not meet, ids stay below 2731, and offsets and lengths fit 16 bits |
| `Runs.ErrorSticks` | src/slab.cpp:466-472 | once an error is recorded, every later add is answered with it and changes nothing, until it is cleared |
| `Runs.FailureChangesNothing` | src/detail/container_builder.hpp:22-31 | a failed operation leaves every node, string byte and tree as it was |
| `Runs.ReferenceStable` | src/slab.cpp:438-449 | until a reset, a live string reference shows the same bytes |
| `Runs.HandleStable` | src/slab.cpp:408-417 | until a reset, a live handle stays live and names the same node |
| `Runs.HandleRejected` | src/slab.cpp:67-76 | after 1 to 2^32 - 2 resets it is rejected |
| `Answers.MakeAnswer` | src/slab.cpp:93-215 | a value is made if and only if it can be stored and its footprint is free; it then stands alone and uses exactly that; otherwise nothing changes and the code says why |
| `Answers.AddAnswer` | src/object.cpp:70-93 | an existing value is added if and only if no error is recorded, it is a root of the same slab, linking it makes no cycle, and the key is UTF-8 and fits; it is then the last member and no tree without the container changes |
| `Answers.AddNewAnswer` | src/detail/container_builder.hpp:10-37 | a new value is added if and only if no error is recorded, it can be stored, and it and its UTF-8 key fit; it is then the last member |
| `Answers.RemoveKeyAnswer` | src/cjson_compat.cpp:68-104 | a member is taken out by key if and only if the object has one with that key, up to ASCII case if asked for; it is the first such, and becomes a root with its value |
| `Answers.RemoveAtAnswer` | src/cjson_compat.cpp:40-66 | an element is taken out by position if and only if the array has it |
| `Laws.ParseDecided` | src/parse.cpp:30-62 | parse succeeds if and only if some derivation of the text has a value that fits; the new tree denotes the text and exactly its footprint is used |
| `Laws.PlantedKeepsTrees` | src/parse.cpp:42-61 | a new tree leaves every old tree as it was |
| `Laws.PrintThenParse` | src/serialize.cpp:199-387 | a printed tree is parsed if and only if it nests within the limit, the conversion accepts its doubles and it fits; it is then rebuilt, and is the same up to number kinds if and only if the conversion gives back its doubles |
| `Laws.PrintThenParsePlain` | src/serialize.cpp:199-387 | any tree without doubles that fits is rebuilt up to number kinds and prints as before, whatever the conversion |
| `Laws.OutputReadsBack` | src/serialize.cpp:154-194 | the text the entry points write for a live handle has the layout of its format and reads back as the tree |
| `Laws.SpellingMatters` | src/serialize.cpp:420-437 | a double spelled as something other than a number would not come back |
| `Laws.SameSizeSuffices` | src/slab.cpp:78-91 | an empty slab as large as the source always suffices for that |
| `Laws.TooDeepToParse` | src/parse.cpp:263-267 | a tree nested deeper than the limit is refused and nothing changes |
| `Laws.KindsKept` | src/parse.cpp:207-223 | the round trip keeps every number's kind if and only if no unsigned number would have fitted the signed range |
| `Laws.KindLost` | src/parse.cpp:196-215 | the unsigned number 5 comes back signed, and the text -0 is the integer 0 |
| `Laws.CopyLaw` | src/cjson_compat.cpp:173-300 | a deep copy denotes the source's value, detached and in preorder, exactly if it fits; the source is unchanged even in the same slab |
| `Laws.ShallowCopyLaw` | src/cjson_compat.cpp:208-212 | without recursion the copy is the source's value without its members |

## Left out

- Floating-point conversion in both directions: the text of a finite double and the double of a text are parameters.
- Laws.PrintThenParse: asks that the text of every double is a number of section 6 of RFC 8259, which is what `std::to_chars` writes; SpellingMatters shows what else could happen.
- Raw memory: alignment, placement new, casts and the payload union. Nodes are an array with 24 bytes of accounting each, payloads a datatype, and overlap of a parse input with the slab is a flag.
- Result storage, move semantics, concepts and the overloads for narrower integer types.
- The typed getters, `Value` type tests, iterators, `StaticSlab` and the cJSON `create_*`, `is_*`, `get_*` and `delete_*` wrappers, which forward to modelled operations.
- The `const char*` overloads of `add`, which only add a null check.
- Parse.Parser.Run: for a malformed text the code is only known not to be that of success, and the offset only to lie inside the input; which of several codes a malformed text gets says little about the parser.
- Parse.Parser.ScanUnit: likewise, the exact code and offset of malformed input are not stated.
- Parse.Parser.ScanString: likewise, the exact code and offset of malformed input are not stated.
- Parse.Parser.ParseString: likewise, the exact code and offset of malformed input are not stated.
- Parse.Parser.ScanNumber: likewise, the exact offset of malformed input is not stated.
- Parse.Parser.ParseNumber: likewise, the exact offset of malformed input is not stated.
- Parse.Parser.ParseStringValue: likewise, the exact code and offset of malformed input are not stated.
- Parse.Parser.ParseMember: likewise, the exact code and offset of malformed input are not stated.
- Parse.Parser.ParseMembers: likewise, the exact code and offset of malformed input are not stated.
- Parse.Parser.ParseValue: likewise, the exact code and offset of malformed input are not stated.
- Parse.Parser.ParseContainer: likewise; and it is one method for arrays and objects, whose two functions in the source differ in the key and the brackets only.
- Serialize.Writer.Append: one class with a mode stands for the three writer classes; appending one character and appending text are one method.
- Serialize.Write: the inner loop is a method of its own, and the validated and unvalidated instances are one method with a flag.
- Containers.Find: its walk, and those of `remove`, `at` and the detaching functions, which the source writes out in each, are the shared `Locate` and `LocateAt`.
- Containers.Add: one method for objects and arrays, arrays passing an empty key that is not stored.
- CjsonCompat.Duplicate: two different slabs are assumed not to share storage.
