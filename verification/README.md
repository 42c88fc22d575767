# dwarf2pdb intermediate representation, modelled in Dafny

dwarf2pdb converts debug information between DWARF (a tree of DIEs addressed by byte offsets)
and PDB/CodeView (flat records addressed by type index) through an in-memory intermediate
representation (IR). This project models that IR layer as the code implements it today:

- the **IR type table** (`IRTypeTable`): a class whose `CreateType` hands out ids from a 32-bit
  counter starting at 1 and stores a blank type under the new id, whose `Lookup` returns the
  type or `None` (the code's null), and whose `Update` stands for a caller writing through the
  pointer `createType` returned;
- the **correspondence maps** (`IRMaps`): a class with the four maps DIE offset <-> IR id and
  type index <-> IR id;
- the **structural equality oracle** (`Compare`): `CompareVec`, `EqualIRType`, `EqualIRSymbol`,
  `EqualIRScope`, `EqualDwarfNode`, `EqualPdbNode`, each characterised by a lemma against a
  reference definition that names exactly what it ignores (a type's own id; DIE offsets;
  PDB payloads and type indices), from which reflexivity, symmetry and transitivity follow;
- the **readers** (`DwarfReader`, `PdbReader`): methods that update the table and maps in place
  and return a compile-unit scope with one self-referential struct (DWARF) or union (PDB);
- the **translators** (`PdbToDwarf`, `DwarfToPdb`): functions returning a fixed root node;
  their emit helpers do nothing;
- the **round trips** the unit tests drive (`RoundTrip`), with lemmas saying exactly which
  native trees the current translators reproduce.

Fixed-width integers are subset types of `int` (`Widths`); `nextID++` wraps explicitly from
0xFFFFFFFF to 0. Trees are values whose children are sequences; a nullable pointer is `Option`.

Where the design documentation and the code differ, the model follows the code:
- the counter silently wraps to 0 ("no type") and then overwrites stored entries
  (`IdsHandedOutWrapsToNoType`), where the design promises fresh, never-reused ids;
- the readers always build a `StructOrUnion` type, never an `Unknown` placeholder;
- the translators allocate no destination ids and emit no type nodes, so translating the
  "Widget" compile unit to PDB yields a root record without children (`WidgetScenario`), not a
  root plus one type node;
- the readers overwrite map entries, so the maps stay inverse to each other only when the read
  records fresh keys (`DwarfReadTwiceSameOffset` shows the breaking case).

## Model

| member | source | states |
|---|---|---|
| `IRTypeTable.Succ` | src/ir/IRTypeTable.cpp:4 | the counter after `nextID++` is `(nextID + 1) mod 2^32` |
| `IRTypeTable.IdsHandedOut` | src/ir/IRTypeTable.cpp:3-11 | the ids n successive `createType` calls return (connected to the method by `CreateTypes`): n of them |
| `IRTypeTable.IdsHandedOutSnoc` | src/ir/IRTypeTable.cpp:4 | one more call appends `(start + n) mod 2^32` to the ids handed out |
| `IRTypeTable.CreateTypes` | src/ir/IRTypeTable.cpp:3-11 | n successive `CreateType` calls on one table return exactly `IdsHandedOut` from the old counter, leave the counter at `(start + n) mod 2^32` and store a blank type under each returned id |
| `IRTypeTable.CreateTwice` | src/ir/IRTypeTable.h:15 | no deduplication: two calls with the same kind on an unwrapped table return distinct, increasing, nonzero ids, both stored |
| `IRTypeTable.IdsHandedOutAt` | src/ir/IRTypeTable.cpp:4 | the i-th id handed out from counter value `start` is `(start + i) mod 2^32` |
| `IRTypeTable.IdsHandedOutNoWrap` | src/ir/IRTypeTable.h:15-17 | before the counter wraps, ids are consecutive, strictly increasing (never reused, no deduplication) and never 0 when starting at 1 |
| `IRTypeTable.IdsHandedOutWrapsToNoType` | src/ir/IRTypeTable.cpp:4 | asking for more ids than remain below 2^32 hands out the "no type" id 0 |
| `IRTypeTable.IRTypeTable.constructor` | src/ir/IRTypeTable.h:8-18 | a fresh table has `nextID == 1`, no types, and satisfies both table invariants |
| `IRTypeTable.IRTypeTable.CreateType` | src/ir/IRTypeTable.cpp:3-11 | returns the old `nextID`, advances it with wrap-around, stores a blank type of kind `k` whose `id` is its key, after which `Lookup` yields it; with the counter unwrapped the key was fresh and nonzero (no stored type changes) and the invariants are kept |
| `IRTypeTable.IRTypeTable.Lookup` | src/ir/IRTypeTable.cpp:13-23 | returns the stored type, or `None` exactly when the id is absent; reads only, so it changes neither `types` nor `nextID` |
| `IRTypeTable.IRTypeTable.Update` | src/dwarf/DwarfReader.cpp:56-70 | replaces the stored type under an existing id (a write through the pointer `createType` returned), leaving `nextID` and every other entry alone |
| `IRMaps.IRMaps.constructor` | src/ir/IRMaps.h:6-17 | all four correspondence maps start empty |
| `IRMaps.RecordFreshPairKeepsPaired` | src/dwarf/DwarfReader.cpp:80-81 | recording a pair of fresh keys in both directions keeps the two maps inverse to each other |
| `IRMaps.RecordOverwriteBreaksPaired` | src/dwarf/DwarfReader.cpp:80-81 | re-recording a native id already paired with another IR id leaves the maps no longer inverse |
| `IRNode.SelfAggregate` | src/dwarf/DwarfReader.cpp:56-70 | the readers' type is a struct-or-union whose single field at offset 0 has the type's own id |
| `Compare.CompareVec` | src/util/Compare.cpp:5-14 | true iff the lengths agree and `cmp` holds at every index |
| `Compare.EqualIRTypeIgnoresOnlyId` | src/util/Compare.cpp:16-41 | `EqualIRType` holds iff both are null or both agree on every member except their own `id`; referenced ids, dims and all six field members are compared in order |
| `Compare.EqualIRTypeIsEquivalence` | src/util/Compare.cpp:16-41 | `EqualIRType` is reflexive, symmetric and transitive |
| `Compare.SameScopeIsValueEquality` | src/util/Compare.cpp:43-72 | two scopes compare equal iff kind, name, declared id list, symbols (name/kind/type) and children, recursively in order, all agree |
| `Compare.EqualIRScopeIsValueEquality` | src/util/Compare.cpp:49-50 | `EqualIRScope` holds iff both are null or both are the same scope value; one null is unequal |
| `Compare.EqualIRScopeIsEquivalence` | src/util/Compare.cpp:49-72 | `EqualIRScope` is reflexive, symmetric and transitive |
| `Compare.SameDwarfNodeIgnoresOnlyDieOffsets` | src/util/Compare.cpp:76-94 | two DWARF trees compare equal iff they agree once every `originalDieOffset` is cleared: tag, both attribute lists in order and children recursively |
| `Compare.EqualDwarfNodeIgnoresOnlyDieOffsets` | src/util/Compare.cpp:74-75 | `EqualDwarfNode` holds iff both are null or both agree with DIE offsets cleared; one null is unequal |
| `Compare.EqualDwarfNodeIsEquivalence` | src/util/Compare.cpp:74-95 | `EqualDwarfNode` is reflexive, symmetric and transitive |
| `Compare.SamePdbNodeIgnoresOnlyPayload` | src/util/Compare.cpp:99-109 | two PDB trees compare equal iff they agree once payloads and type indices are cleared: leaf kind, both names and children recursively |
| `Compare.EqualPdbNodeIgnoresOnlyPayload` | src/util/Compare.cpp:97-98 | `EqualPdbNode` holds iff both are null or both agree with payloads and type indices cleared; one null is unequal |
| `Compare.EqualPdbNodeIsEquivalence` | src/util/Compare.cpp:97-110 | `EqualPdbNode` is reflexive, symmetric and transitive |
| `DwarfReader.ReadObject` | src/dwarf/DwarfReader.cpp:5-42 | returns a compile unit named `path` declaring one new self-referential struct "DummyFromDwarf" of size 16 (field "fieldA") and a variable "var_from_dwarf" of it; records DIE offset 0x1234 both ways; PDB maps untouched; table invariants and map-to-table references kept; maps stay inverse when the keys were fresh |
| `DwarfReader.ReadFromModel` | src/dwarf/DwarfReader.cpp:44-83 | returns compile unit "fromModel" declaring exactly one new struct of size 16 named by the first string attribute (or "AnonFromDwarfNode") whose only field "self" has its own id, and variable "symFromDwarf"; records the model's DIE offset both ways; PDB maps untouched; maps stay inverse when the keys were fresh |
| `DwarfReader.ParseRawDwarf` | src/dwarf/DwarfReader.cpp:85-92 | yields a compile-unit node at DIE offset 0x1000 with no attributes or children, whatever the path |
| `DwarfReader.ImportCompileUnit` | src/dwarf/DwarfReader.cpp:94-103 | changes nothing: the scope comes back as given, table and maps untouched |
| `PdbReader.ReadPdb` | src/pdb/PdbReader.cpp:4-40 | returns a compile unit named `path` declaring one new self-referential union "DummyFromPdb" of size 8 (field "alt0") and a variable "var_from_pdb" of it; records type index 0x1000 both ways; DWARF maps untouched; maps stay inverse when the keys were fresh |
| `PdbReader.ReadFromModel` | src/pdb/PdbReader.cpp:42-73 | returns compile unit "fromPdbModel" declaring exactly one new union of size 8 named by the pretty name (or "AnonFromPdbNode") whose only field "alt0" has its own id, and variable "symFromPdb"; records the model's type index both ways; DWARF maps untouched; maps stay inverse when the keys were fresh |
| `PdbReader.ParseRawPdb` | src/pdb/PdbReader.cpp:75-79 | yields a value-initialised node: leaf kind 0, empty names and payload, no children |
| `PdbToDwarf.EmitTypesAsDwarf` | src/pipeline/PdbToDwarf.cpp:20-33 | returns the compile-unit node unchanged and cannot depend on table or maps |
| `PdbToDwarf.Translate` | src/pipeline/PdbToDwarf.cpp:4-18 | always a non-null compile-unit node at DIE offset 0x2000 with no attributes or children |
| `DwarfToPdb.EmitTypesAsPdb` | src/pipeline/DwarfToPdb.cpp:19-31 | returns the root record unchanged and cannot depend on table or maps |
| `DwarfToPdb.Translate` | src/pipeline/DwarfToPdb.cpp:4-17 | always a non-null record of leaf kind 0x1234 named "PdbRootFromDwarf" with empty unique name, payload, type index 0 and no children |
| `RoundTrip.DwarfRoundTripIff` | ut/test_roundtrip_dwarf.cpp:30-44 | a DWARF tree is oracle-equal to its translation iff it is a bare compile unit (tag 0x11, no attributes, no children) |
| `RoundTrip.PdbRoundTripIff` | ut/test_roundtrip_pdb.cpp:29-36 | a PDB tree is oracle-equal to its translation iff it is a childless 0x1234 record named "PdbRootFromDwarf" with empty unique name |
| `RoundTrip.TranslateToDwarfIgnoresInput` | src/pipeline/PdbToDwarf.cpp:10-14 | any two DWARF translations are oracle-equal, whatever scope, table and maps |
| `RoundTrip.TranslateToPdbIgnoresInput` | src/pipeline/DwarfToPdb.cpp:10-13 | any two PDB translations are oracle-equal, whatever scope, table and maps |
| `RoundTrip.RawDwarfRoundTrips` | src/dwarf/DwarfReader.cpp:88-90 | the raw-parse node is oracle-equal to a translation though their DIE offsets differ |
| `RoundTrip.RawPdbDoesNotRoundTrip` | src/pdb/PdbReader.cpp:78 | the raw-parse node is never oracle-equal to a translation |
| `RoundTrip.DwarfRoundTripBasic` | ut/test_roundtrip_dwarf.cpp:14-45 | the DWARF unit test: one declared type (id 1), named after the attribute and self-referential; translation has tag 0x11; the trees are not oracle-equal |
| `RoundTrip.PdbRoundTripBasic` | ut/test_roundtrip_pdb.cpp:14-39 | the PDB unit test: one declared union (id 1), named after the pretty name and self-referential; translation keeps leaf kind 0x1234 with name "PdbRootFromDwarf"; not oracle-equal |
| `RoundTrip.WidgetScenario` | src/dwarf/DwarfReader.cpp:56-81 | a "Widget" compile unit read on a fresh session gives exactly one type "Widget" with self field "self", one map entry each way, inverse maps; its PDB translation has no children |
| `RoundTrip.DwarfReadTwiceSameOffset` | src/dwarf/DwarfReader.cpp:80-81 | two reads with one DIE offset leave the offset pointing at id 2 while ids 1 and 2 both point at it: the maps are no longer inverse |

## Left out

- `src/main.cpp`: argument dispatch, usage text and the exit status; input/output plumbing only.
- `src/dwarf/DwarfWriter.cpp`, `src/pdb/PdbWriter.cpp`: they only print; there is no container encoding to model.
- Console logging in the readers and translators: side output with no effect on state.
- Raw `parent` back-pointers of scopes and nodes: never set or compared by the code, so trees are values.
- `unique_ptr` ownership and pointer identity: trees are values; a child pointer is never null in the code, so children are non-optional.
- Hashing and iteration order of `unordered_map`: Dafny `map` values are used.
- The reachability walk, id allocation and type emission described for the translators: there is no code for them, only comments, so the translators are modelled as the fixed constructions they are.
- The integration and system tests: they write temporary files or are placeholders and assert nothing beyond non-null results.
- File access: the raw parsers and the path-based readers never open their `path` argument, so no file input is modelled.
