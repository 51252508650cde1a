# STO benchmark record layouts and kernels, modelled in Dafny

This project models the sequential core of a software-transactional-memory
benchmark suite. Most of it is the generated record-layout code of the benchmarks.
The rest is a set of small, self-contained kernels that the benchmarks and the data
structures rely on.

**Generated record layouts** (Wikipedia `page_row`, Rubis `item_row`, Adapting
`adapting_value`, LIKE `page_value`, TPC-C `stock_value`, and the TPC-C split
parameters):

- a `NamedColumn` index space whose array columns leave gaps, with `COLCOUNT` as
  the sentinel (`ColumnLayout`);
- `RoundedNamedColumn`, which maps a slot back to the column that declares it;
- `SplitPolicy` tables, which map each column to a cell, together with
  `cell_col_count` and `copy_cell` (`SplitPolicy`, plus one module per record);
- the multi-pointer `RecordAccessor`, with `split_of`, `cell_of`,
  `copy_cell(index, cell)` and `copy_into` (`GeneratedAccessor`);
- the `SplitParams` `map` / `split_builder` / `split_merger` families, with the
  `UniRecordAccessor` and `SplitRecordAccessor` (`SplitParams`, `TpccSplitParams`);
- the `stock_value` column with its own split index: `split_of`, `resplit` and
  `copy_data` (`TpccStockValue`).

A policy is a sequence giving the cell of each column, so a policy's
`column_to_cell(c)` is the lookup `policies[k][c]`. Each record module carries
its literal policy tables and the hard-coded per-policy `cell_col_count` and
`copy_cell` bodies. Each of those is proved equal to the generic table semantics
of `SplitPolicy`. The `RecordAccessor::cell_col_count` switch is stated once, as
`SplitPolicy.CellColCount`, and each record instantiates it with its own tables. A record struct is an `array<V>` indexed
by field ordinal. The generator treats field types as opaque, so one opaque type
`V` stands for all of them.

**Kernels:**

- `DbIndex`: the `DB_index` cell-access helpers. These are `access_t` and its
  `&`, `item_key_t` packing of an element pointer and a cell number,
  `column_to_cell_accesses`, and the `has_*` flag tests.
- `CuckooNT`: index arithmetic of the non-transactional cuckoo map (`hashsize`,
  `hashmask`, `index_hash`, `alt_index`), the BFS ring queue `b_queue`, and the
  bucket slot bitset with its `try_add/read/del_from_bucket` scans. `CuckooBits`
  holds the bit-level facts it uses.
- `MassTransVersion`: the Masstree version word (`versionCheck`, `inc_version`,
  lock and unlock) and the interior-node pointer tag.
- `ArtNodeHeader`: the ART node `header_` word (version number, lock, invalid
  and must-grow bits).
- `IntBits`: the Java-style `Integer` bit functions of the flat-combining
  framework, including `nearestPowerOfTwo` and `log2`.
- `IntToText`: `Itoa`.
- `SnapshotCounter`: the packed sequence/value word of `SnapshotCounter` and its
  update.
- `TpccInput`: TPC-C input generation. This covers NURand (clause 2.1.6 of the
  TPC-C standard), last-name syllables (clause 4.3.2.3), the transaction mixes,
  `random_a_string` and the division of warehouses among runner threads.
- `BucketHashtable`: the non-transactional bucket-list hashtable.
- `TransactionalVector`: the sequential size and shift semantics of `TVector`.

Code that updates state in place is modelled as classes over arrays, with
`modifies` frames and loops with invariants. Examples are `copy_cell`,
`copy_into`, `resplit`, `b_queue`, the cuckoo bucket, the version words,
`SnapshotCounter`, the hashtable and `TVector`. Pure table lookups and bit
arithmetic are modelled as functions, with lemmas about them.

Where the code departs from what its own documentation or its Java original
promises, the model has both halves: a member that follows the code as written,
and a corrected member with the evidently intended property proved about it.
"## Findings" names both. The `SnapshotCounter` class runs the packing as
written.

## Model

| member | source | states |
|---|---|---|
| ColumnLayout.StartsFrom | benchmark/Wikipedia_structs_generated.hh:1250-1262 | the enumerators of columns of the given widths: the first starts at the base and each starts where the previous one ends |
| ColumnLayout.FromWidths | benchmark/Wikipedia_structs_generated.hh:1250-1262 | a NamedColumn enum built from column widths is well formed: starts at 0, strictly increasing, COLCOUNT is the total width and each column spans its width |
| ColumnLayout.StartsIncrease | benchmark/TPCC_structs_generated.hh:2894-2902 | columns of width at least 1 (an array column leaves a gap) give strictly increasing enumerators that all lie below COLCOUNT |
| ColumnLayout.Rounded | benchmark/Wikipedia_structs_generated.hh:1307-1338 | RoundedNamedColumn<c> (with c < COLCOUNT required) is an enumerator, at most c, and the greatest enumerator at most c; a negative c yields the first column |
| ColumnLayout.RoundedOnSpan | benchmark/Wikipedia_structs_generated.hh:1307-1338 | every slot of a declared column rounds back to that column's enumerator |
| ColumnLayout.ScalarRoundedIsIdentity | benchmark/Rubis_structs_generated.hh:91-128 | when every column is scalar, RoundedNamedColumn is the identity on 0..COLCOUNT-1 |
| ColumnLayout.Plus | benchmark/Wikipedia_structs_generated.hh:1264-1282 | operator+ (and +=, ++) on NamedColumn adds in the enum's underlying int, required not to overflow |
| ColumnLayout.Minus | benchmark/Wikipedia_structs_generated.hh:1284-1295 | operator- (and -=) on NamedColumn subtracts in the underlying int, required not to overflow |
| ColumnLayout.Divide | benchmark/Wikipedia_structs_generated.hh:1297-1299 | operator/ is C++ division truncating toward zero: the remainder takes the dividend's sign and is smaller than the divisor in magnitude; it agrees with Euclidean division on non-negative operands |
| ColumnLayout.PlusMinusInverse | benchmark/Wikipedia_structs_generated.hh:1264-1295 | (nc + i) - i == nc and (nc - i) + i == nc |
| SplitPolicy.CountBelow | benchmark/Wikipedia_structs_generated.hh:1526-1534 | the number of slots below k in a cell is at most k, 0 exactly when no slot below k is in the cell, k exactly when all are |
| SplitPolicy.Count | benchmark/Wikipedia_structs_generated.hh:1526-1534 | cell_col_count's meaning: the number of slots a table assigns to a cell, 0 exactly for a cell the table never names, COLCOUNT exactly when it names only that cell |
| SplitPolicy.CellColCount | benchmark/Wikipedia_structs_generated.hh:1639-1647 | RecordAccessor::cell_col_count(index, cell) counts the cell's slots in policy index, and is 0 for an unknown index; each record module instantiates it with its own policy tables and generated counts, which the call checks against the tables |
| SplitPolicy.CountTwoBlocks | benchmark/Wikipedia_structs_generated.hh:1522-1534 | a table whose first m slots are in one cell and the rest in another gives counts m and COLCOUNT - m |
| SplitPolicy.CountTwoBlocksBelow | benchmark/Wikipedia_structs_generated.hh:1522-1534 | the two-block counts hold for every prefix of the table |
| SplitPolicy.CountsPartition | benchmark/Wikipedia_structs_generated.hh:1522-1534 | with MAX_SPLITS 2, the counts of cells 0 and 1 add up to COLCOUNT |
| SplitPolicy.CountsPartitionBelow | benchmark/Wikipedia_structs_generated.hh:1522-1534 | the counts of cells 0 and 1 add up to k on every prefix of length k |
| SplitPolicy.OverlayBothCells | benchmark/Wikipedia_structs_generated.hh:1649-1652 | copying cell 0 and then cell 1 from one source copies every field of the record |
| SplitPolicy.OverlayUnusedCell | benchmark/Wikipedia_structs_generated.hh:1502-1517 | copy_cell of a cell the table never names leaves dest unchanged |
| SplitPolicy.OverlayCommutes | benchmark/Wikipedia_structs_generated.hh:1535-1551 | the cells are disjoint: copying cell a from one source and cell b from another can happen in either order |
| SplitPolicy.CopyCell | benchmark/Wikipedia_structs_generated.hh:1535-1551 | copy_cell<cell> assigns exactly the fields whose column the table puts in the cell; every other dest field keeps its value |
| GeneratedAccessor.RecordAccessor.constructor | benchmark/Wikipedia_structs_generated.hh:1568-1570 | the given pointers fill vptrs_ in order, the remaining ones are null, and splitindex_ is 0 |
| GeneratedAccessor.RecordAccessor.SplitOf | benchmark/Wikipedia_structs_generated.hh:1597-1605 | split_of(index, column) is policy[index][column] for a known policy index and 0 for any other index |
| GeneratedAccessor.RecordAccessor.CellOf | benchmark/Wikipedia_structs_generated.hh:1607-1609 | cell_of(column) is the cell that the policy named by splitindex_ gives the column (0 or 1), and cell 0 when splitindex_ names no policy |
| GeneratedAccessor.RecordAccessor.Truthy | benchmark/Wikipedia_structs_generated.hh:1572-1574 | operator bool tests only vptrs_[0]; when true, every column that cell_of places in cell 0 is readable, and every column is when splitindex_ names no policy |
| GeneratedAccessor.RecordAccessor.Get | benchmark/Wikipedia_structs_generated.hh:1654-1656 | a getter reads the column from vptrs_[cell_of(column)]: the pointer of the column's cell under the policy in force, or vptrs_[0] when splitindex_ names no policy |
| GeneratedAccessor.RecordAccessor.CopyCellAt | benchmark/Wikipedia_structs_generated.hh:1611-1637 | copy_cell(index, cell) copies the cell's fields under policy index; an unknown index or a cell other than 0 and 1 changes nothing |
| GeneratedAccessor.RecordAccessor.CopyInto | benchmark/Wikipedia_structs_generated.hh:1649-1652 | copy_into(vptr, index) leaves every field as stored in the pointer of its cell under policy index; an unknown index copies nothing |
| GeneratedAccessor.RecordAccessor.CopyIntoChecked | benchmark/Adapting_structs_generated.hh:416-423 | copy_into with null checks skips cells whose pointer is null; those fields keep their old values |
| GeneratedAccessor.RecordAccessor.CopyIntoCurrent | benchmark/Adapting_structs_generated.hh:425-427 | copy_into(vptr) uses the current splitindex_: with both pointers set, vptr receives exactly what the getters read |
| WikipediaPageRow.RoundedIsIdentity | benchmark/Wikipedia_structs_generated.hh:1307-1338 | RoundedNamedColumn maps each page_row slot to its own column |
| WikipediaPageRow.CellColCount0 | benchmark/Wikipedia_structs_generated.hh:1496-1501 | the generated cell_col_count of policy 0 equals the number of policy-0 slots in the cell |
| WikipediaPageRow.CellColCount1 | benchmark/Wikipedia_structs_generated.hh:1526-1534 | the generated cell_col_count of policy 1 (5 and 5) equals the number of policy-1 slots in the cell |
| WikipediaPageRow.CopyCell0 | benchmark/Wikipedia_structs_generated.hh:1502-1517 | the generated copy_cell of policy 0 assigns exactly the fields of the cell (all ten for cell 0, none otherwise) |
| WikipediaPageRow.CopyCell1 | benchmark/Wikipedia_structs_generated.hh:1535-1551 | the generated copy_cell of policy 1 assigns exactly the fields the table puts in the cell |
| RubisItemRow.RoundedIsIdentity | benchmark/Rubis_structs_generated.hh:91-128 | RoundedNamedColumn maps each item_row slot to its own column |
| RubisItemRow.CellColCount0 | benchmark/Rubis_structs_generated.hh:312-317 | the generated cell_col_count of policy 0 (12 for cell 0) equals the number of policy-0 slots in the cell |
| RubisItemRow.CellColCount1 | benchmark/Rubis_structs_generated.hh:340-352 | policy 1 sends columns 0-7 to cell 1 and 8-11 to cell 0; the generated counts 8 and 4 are those slot counts |
| RubisItemRow.CopyCell0 | benchmark/Rubis_structs_generated.hh:318-334 | the generated copy_cell of policy 0 assigns exactly the fields of the cell |
| RubisItemRow.CopyCell1 | benchmark/Rubis_structs_generated.hh:353-371 | the generated copy_cell<1> and copy_cell<0> of policy 1 assign exactly the fields the table puts in each cell, disjointly |
| SplitParams.Rank | benchmark/Adapting_structs_generated.hh:667-680 | a field's position inside its cell struct is at most its ordinal in the row |
| SplitParams.RankIncreases | benchmark/Adapting_structs_generated.hh:667-680 | fields of one cell keep their declaration order inside the cell struct |
| SplitParams.Build | benchmark/Adapting_structs_generated.hh:667-680 | split_builder[cell] yields a struct with exactly the cell's fields, each field that map sends to the cell stored at its position |
| SplitParams.Merged | benchmark/Adapting_structs_generated.hh:682-691 | the row split_merger[cell] leaves has the row's size |
| SplitParams.RankBound | benchmark/Adapting_structs_generated.hh:667-680 | every position of a cell's field lies inside the cell struct |
| SplitParams.MergeBuildCell | benchmark/Adapting_structs_generated.hh:667-691 | merging the builder's struct of a cell restores exactly that cell's fields and keeps every other field |
| SplitParams.MergeBuildRoundTrip | benchmark/Adapting_structs_generated.hh:667-691 | for a map into cells 0 and 1, applying each merger to its builder's output reconstructs the row, whatever the target held |
| SplitParams.MergeBuildSingle | benchmark/Adapting_structs_generated.hh:526-549 | with a single split (map always 0) the one merger restores the row from its builder's output |
| SplitParams.RankSplitAt | benchmark/Adapting_structs_generated.hh:693-701 | under a map that cuts at k, positions count up in one cell before k and in the other after it |
| SplitParams.BuildSplitAt | benchmark/Adapting_structs_generated.hh:667-701 | a map that sends the first k fields to one cell and the rest to another makes the two builders cut the row at k |
| SplitParams.Merge | benchmark/Adapting_structs_generated.hh:682-691 | split_merger[cell](out, in) assigns each field of the cell from the struct and leaves the other fields |
| SplitParams.UniRecordAccessor.constructor | benchmark/Adapting_structs_generated.hh:736-737 | the accessor holds the given row pointer |
| SplitParams.UniRecordAccessor.Truthy | benchmark/Adapting_structs_generated.hh:739-741 | operator bool holds exactly when vptr_ is set, and then the row has every field a getter reads |
| SplitParams.UniRecordAccessor.Get | benchmark/Adapting_structs_generated.hh:744-758 | a getter reads its field from the whole row |
| SplitParams.UniRecordAccessor.CopyInto | benchmark/Adapting_structs_generated.hh:760-769 | copy_into_impl copies every field when vptr_ is set and nothing otherwise |
| SplitParams.SplitRecordAccessor.constructor | benchmark/Adapting_structs_generated.hh:780-781 | the accessor holds one pointer per cell struct, under the given map |
| SplitParams.SplitRecordAccessor.Truthy | benchmark/Adapting_structs_generated.hh:784-786 | operator bool holds exactly when every cell pointer is set, and then every field's getter has its cell struct to read |
| SplitParams.SplitRecordAccessor.Get | benchmark/Adapting_structs_generated.hh:788-802 | a getter reads its field from the struct of the cell map sends it to, at its rank there |
| SplitParams.SplitRecordAccessor.GetBuiltRow | benchmark/Adapting_structs_generated.hh:788-802 | when the cell structs were built by split_builder from one row, every getter gives back that row's field |
| SplitParams.SplitRecordAccessor.CopyInto | benchmark/Adapting_structs_generated.hh:803-812 | copy_into_impl writes every field of a cell whose pointer is set, as its getter reads it, and leaves the fields of an absent cell |
| AdaptingValue.RoundedIsIdentity | benchmark/Adapting_structs_generated.hh:77-90 | RoundedNamedColumn maps each slot to its own column |
| AdaptingValue.CellColCount0 | benchmark/Adapting_structs_generated.hh:170-175 | the generated count of policy 0 (4 in cell 0) is the number of policy-0 slots in the cell |
| AdaptingValue.CellColCount1 | benchmark/Adapting_structs_generated.hh:192-200 | policy 1 gives counts 3 and 1, the numbers of its slots in cells 1 and 0 |
| AdaptingValue.CellColCount2 | benchmark/Adapting_structs_generated.hh:222-230 | policy 2 gives counts 2 and 2, the numbers of its slots in cells 1 and 0 |
| AdaptingValue.CellColCount3 | benchmark/Adapting_structs_generated.hh:252-260 | policy 3 gives counts 1 and 3, the numbers of its slots in cells 1 and 0 |
| AdaptingValue.CopyCell0 | benchmark/Adapting_structs_generated.hh:176-183 | under policy 0, copy_cell<0> copies the whole record and any other cell copies nothing |
| AdaptingValue.CopyCell1 | benchmark/Adapting_structs_generated.hh:201-213 | policy 1's copy_cell assigns exactly the fields its table puts in the cell |
| AdaptingValue.CopyCell2 | benchmark/Adapting_structs_generated.hh:231-243 | policy 2's copy_cell assigns exactly the fields its table puts in the cell |
| AdaptingValue.CopyCell3 | benchmark/Adapting_structs_generated.hh:261-273 | policy 3's copy_cell assigns exactly the fields its table puts in the cell |
| AdaptingValue.SplitMapAgreesWithPolicy1 | benchmark/Adapting_structs_generated.hh:693-701 | SplitParams map sends columns 0-2 to cell 1 and the rest to cell 0, agreeing with SplitPolicy<1> |
| AdaptingValue.Builders | benchmark/Adapting_structs_generated.hh:667-680 | the builders put read_only, write_some and write_much in cell 1 and write_most in cell 0 |
| AdaptingValue.MergersRestoreRow | benchmark/Adapting_structs_generated.hh:667-691 | applying both mergers to the builder outputs reconstructs the original adapting_value |
| AdaptingValue.SingleMergerRestoresRow | benchmark/Adapting_structs_generated.hh:526-549 | with one split, the single merger restores the value from its builder's output |
| AdaptingValue.SplitGetters | benchmark/Adapting_structs_generated.hh:787-801 | the split accessor reads read_only, write_some and write_much from vptr_1_ at positions 0-2 and write_most from vptr_0_ |
| LikePageValue.RoundedIsIdentity | benchmark/LIKE_structs_generated.hh:71-79 | RoundedNamedColumn maps each slot to its own column |
| LikePageValue.CellColCount0 | benchmark/LIKE_structs_generated.hh:132-137 | the generated count of policy 0 (2 in cell 0) is the number of policy-0 slots in the cell |
| LikePageValue.CellColCount1 | benchmark/LIKE_structs_generated.hh:150-162 | SplitPolicy<1> puts page_id in cell 1 and likes in cell 0, one column each |
| LikePageValue.CopyCell0 | benchmark/LIKE_structs_generated.hh:138-145 | policy 0's copy_cell<0> copies both fields; any other cell copies nothing |
| LikePageValue.CopyCell1 | benchmark/LIKE_structs_generated.hh:163-172 | policy 1's copy_cell<1> copies page_id and copy_cell<0> copies likes |
| LikePageValue.SplitMapAgreesWithPolicy1 | benchmark/LIKE_structs_generated.hh:743-751 | map returns 1 for column 0 and 0 otherwise, agreeing with SplitPolicy<1> |
| LikePageValue.Builders | benchmark/LIKE_structs_generated.hh:721-732 | the builders put page_id in cell 1 and likes in cell 0 |
| LikePageValue.MergersRestoreRow | benchmark/LIKE_structs_generated.hh:721-741 | merging the builder outputs yields the original page_value |
| LikePageValue.SingleMergerRestoresRow | benchmark/LIKE_structs_generated.hh:599-624 | with one split, the single merger copies both fields back |
| LikePageValue.SplitGetters | benchmark/LIKE_structs_generated.hh:827-833 | the split accessor reads page_id from vptr_1_ and likes from vptr_0_ |
| TpccStockValue.Columns | benchmark/TPCC_structs_generated.hh:2894-2902 | s_dists occupies slots 0-9 and s_data starts at 10, giving six declared columns and COLCOUNT 15 |
| TpccStockValue.RoundedDists | benchmark/TPCC_structs_generated.hh:2935-2954 | RoundedNamedColumn maps every index 0-9 to s_dists |
| TpccStockValue.RoundedScalar | benchmark/TPCC_structs_generated.hh:2935-2954 | the slots from s_data on are scalar columns and round to themselves |
| TpccStockValue.IsArrayIffWide | benchmark/TPCC_structs_generated.hh:2966-3005 | is_array holds exactly for the declared column that spans more than one slot (s_dists, an array of 10) |
| TpccStockValue.Accessor | benchmark/TPCC_structs_generated.hh:3117-3121 | get<Column>() resolves to one of the six declared accessors |
| TpccStockValue.AccessorIsRounded | benchmark/TPCC_structs_generated.hh:3117-3121 | the accessor get<col>() returns is the column RoundedNamedColumn<col> names, and col lies inside that column's slots |
| TpccStockValue.GetDists | benchmark/TPCC_structs_generated.hh:3153-3251 | get<s_dists+k> returns s_dists for k in 0..9 |
| TpccStockValue.CountedSlots | benchmark/TPCC_structs_generated.hh:3018-3024 | reading a whole accessor counts the column's slot range: Column to Column + size for the array, Column alone otherwise |
| TpccStockValue.ElementSlotInColumn | benchmark/TPCC_structs_generated.hh:3073-3085 | an element access s_dists[index] counts a slot inside s_dists's range that rounds back to s_dists |
| TpccStockValue.StockValue.constructor | benchmark/TPCC_structs_generated.hh:3127 | a new stock_value has splitindex_ = COLCOUNT |
| TpccStockValue.StockValue.SplitOf | benchmark/TPCC_structs_generated.hh:3123-3125 | split_of(i) is 0 iff i < splitindex_, and 1 otherwise |
| TpccStockValue.StockValue.Resplit | benchmark/TPCC_structs_generated.hh:3136-3142 | resplit requires 0 < index <= COLCOUNT, copies all values and sets splitindex_ |
| TpccStockValue.StockValue.CopyData | benchmark/TPCC_structs_generated.hh:3144-3151 | copy_data<Column> copies every accessor from the one of Column on and leaves the earlier ones |
| TpccStockValue.DefaultSplitAllCellZero | benchmark/TPCC_structs_generated.hh:3123-3127 | the default splitindex_ = COLCOUNT puts every slot in cell 0 |
| TpccStockValue.SplitOfAfterResplit | benchmark/TPCC_structs_generated.hh:3123-3142 | after resplit at k, cell 1 holds exactly the slots from k on |
| TpccSplitParams.NumSplits | benchmark/tpcc_split_params_ts.hh:5-8 | every TPC-C table has one or two splits |
| TpccSplitParams.MapInRange | benchmark/tpcc_split_params_ts.hh:44-47 | every field maps to a cell below num_splits (a single-split map always returns 0), and a split table leaves both cells nonempty |
| TpccSplitParams.CellSizes | benchmark/tpcc_split_params_ts.hh:556-559 | a threshold map at k (7 for warehouse, 13 for customer, 2 for stock, ...) gives cell 0 k fields and cell 1 the rest; an unsplit table keeps every field in cell 0 |
| TpccSplitParams.ThresholdBuilders | benchmark/tpcc_split_params_ts.hh:10-28 | the builders of a threshold split cut the row at the threshold |
| TpccSplitParams.MergeAll | benchmark/tpcc_split_params_ts.hh:29-42 | applying all mergers to the builder outputs leaves a row of the same size |
| TpccSplitParams.MergeAllRestoresRow | benchmark/tpcc_split_params_ts.hh:10-42 | merging the builder outputs of any table reconstructs the row |
| TpccSplitParams.ThresholdGetters | benchmark/tpcc_split_params_ts.hh:182-219 | the split accessor of a threshold split reads a field below the threshold from vptr_0_ at its ordinal and any other from vptr_1_ at its ordinal minus the threshold |
| DbIndex.And | benchmark/DB_index.hh:156-160 | access_t `&` keeps the read flag exactly when both operands have it, and likewise the write flag |
| DbIndex.Or | benchmark/DB_index.hh:225-226 | the `|` used to combine accesses has the read (write) flag exactly when either operand has it |
| DbIndex.AccessAlgebra | benchmark/DB_index.hh:156-160 | read with write is update; update masks nothing away; none absorbs; read and write share no flag |
| DbIndex.AccessByFlags | benchmark/DB_index.hh:156 | two access_t values with the same read and write flags are equal |
| DbIndex.CellNum | benchmark/DB_index.hh:207-209 | cell_num() is below 2^14 for every key |
| DbIndex.MakeKey | benchmark/DB_index.hh:196-197 | item_key_t(e, cell) keeps the low 48 bits of the pointer above bit 16, the cell number modulo 2^14 in bits 2 to 15, and the two I bits clear |
| DbIndex.RowItemKey | benchmark/DB_index.hh:199-201 | row_item_key(e) keeps the pointer as item_key_t does and has an all-zero cell field |
| DbIndex.KeyCell | benchmark/DB_index.hh:196-209 | cell_num of a built key is the cell number modulo 2^14, and the I bits are clear |
| DbIndex.KeyPtr | benchmark/DB_index.hh:196-205 | internal_elem_ptr of a built key is the low 48 bits of the pointer |
| DbIndex.KeyRoundTrip | benchmark/DB_index.hh:177-209 | a key built from (e, cell) gives back the cell modulo 2^14 (exactly below 16384), the low 48 pointer bits (exactly for a 48-bit pointer), and leaves the two I bits zero |
| DbIndex.RowItem | benchmark/DB_index.hh:197-213 | row_item_key(e) is a row item; a key is a row item exactly when its cell number is 0 modulo 2^14 |
| DbIndex.CellAccess | benchmark/DB_index.hh:216-229 | a cell's access has the read (write) flag iff some listed column that map sends to that cell has it |
| DbIndex.CellAccessNone | benchmark/DB_index.hh:216-229 | a cell's access is none iff every listed column mapped to it has access none |
| DbIndex.ColumnToCellAccesses | benchmark/DB_index.hh:216-229 | the loop returns one access per cell, each equal to the or of the accesses of the columns mapped there |
| DbIndex.User0BitFlagsDistinct | benchmark/DB_index.hh:618-621 | insert_bit, delete_bit, row_update_bit and row_cell_bit are nonzero and pairwise disjoint when user0_bit is a single low bit |
| DbIndex.SetFlag | benchmark/DB_index.hh:650-661 | setting a flag makes its has_ test true and leaves the has_ test of every disjoint flag unchanged |
| DbIndex.HasInsert | benchmark/DB_index.hh:650-652 | has_insert can only hold when both the flags word and user0_bit are nonzero |
| DbIndex.HasDelete | benchmark/DB_index.hh:653-655 | has_delete reads the flags word one place down against user0_bit, as delete_bit is user0_bit << 1 |
| DbIndex.HasRowUpdate | benchmark/DB_index.hh:656-658 | has_row_update reads the flags word two places down against user0_bit |
| DbIndex.HasRowCell | benchmark/DB_index.hh:659-661 | has_row_cell reads the flags word three places down against user0_bit |
| CuckooNT.HashSize | CuckooHashMapNT.hh:1087-1089 | hashsize(hashpower) is a nonzero power of two |
| CuckooNT.HashMask | CuckooHashMapNT.hh:1093-1095 | hashmask is a run of low one bits below hashsize, so masking a hash with it gives a valid bucket index |
| CuckooNT.IndexHash | CuckooHashMapNT.hh:1104-1106 | index_hash is always below hashsize, a valid bucket index |
| CuckooNT.AltIndex | CuckooHashMapNT.hh:1114-1121 | alt_index is always below hashsize, a valid bucket index |
| CuckooNT.AltIndexInvolution | CuckooHashMapNT.hh:1108-1121 | for any valid bucket index, alt_index applied twice gives the index back |
| CuckooNT.CandidateBuckets | CuckooHashMapNT.hh:1108-1113 | alt_index(hv, alt_index(hv, index_hash(hv))) == index_hash(hv), as the source comment promises |
| CuckooNT.CheckVersionMeaning | CuckooHashMapNT.hh:923-928 | check_version holds only when the final version equals the initial one and never when the initial version is dirty; a version checks against itself iff it is clean |
| CuckooNT.CheckVersion | CuckooHashMapNT.hh:926-928 | check_version holds exactly when the two versions are equal and even, i.e. the dirty bit W is clear |
| CuckooNT.BQueue.constructor | CuckooHashMapNT.hh:1159 | a new b_queue is empty |
| CuckooNT.BQueue.NotFull | CuckooHashMapNT.hh:1175-1178 | not_full() holds iff fewer than MAX_CUCKOO_COUNT entries are queued |
| CuckooNT.BQueue.NotEmpty | CuckooHashMapNT.hh:1180-1182 | not_empty() holds iff some entry is queued |
| CuckooNT.BQueue.Enqueue | CuckooHashMapNT.hh:1162-1166 | enqueue on a non-full queue appends x at the back of the ring |
| CuckooNT.BQueue.Dequeue | CuckooHashMapNT.hh:1168-1173 | dequeue on a non-empty queue returns the oldest entry and removes it |
| CuckooNT.Bucket.constructor | CuckooHashMapNT.hh:527-532 | a new bucket has no occupied slot and overflow 0 |
| CuckooNT.Bucket.SetKV | CuckooHashMapNT.hh:535-539 | setKV sets the occupied bit of pos and stores the pair at pos, leaving every other slot |
| CuckooNT.Bucket.EraseKV | CuckooHashMapNT.hh:541-545 | eraseKV clears the occupied bit of pos and nothing else |
| CuckooNT.Bucket.Clear | CuckooHashMapNT.hh:547-555 | clear leaves every slot unoccupied and overflow 0 |
| CuckooNT.Bucket.FirstMatch | CuckooHashMapNT.hh:1503-1512 | the first occupied slot holding the key, or -1 when no occupied slot holds it |
| CuckooNT.Bucket.FirstEmpty | CuckooHashMapNT.hh:1542-1552 | the first unoccupied slot, or -1 when every slot is occupied |
| CuckooNT.Bucket.FirstMatchStable | CuckooHashMapNT.hh:1503-1512 | once a match is found, scanning further slots does not change it |
| CuckooNT.Bucket.FirstEmptyStable | CuckooHashMapNT.hh:1547-1551 | once a free slot is found, scanning further slots does not change it |
| CuckooNT.Bucket.TryRead | CuckooHashMapNT.hh:1496-1514 | ok exactly when an occupied slot holds the key, returning the value of the first such slot; failure_key_not_found otherwise |
| CuckooNT.Bucket.TryAdd | CuckooHashMapNT.hh:1532-1555 | failure_key_duplicated exactly when an occupied slot holds the key, ok otherwise; j is the first free slot scanned before stopping, or -1 |
| CuckooNT.Bucket.TryDel | CuckooHashMapNT.hh:1559-1576 | ok exactly when an occupied slot holds the key, and then only the first such slot is freed; failure_key_not_found otherwise, with the bucket unchanged |
| CuckooBits.SetBitOnly | CuckooHashMapNT.hh:510-516 | setBit makes getBit true at pos and leaves every other bit |
| CuckooBits.ResetBitOnly | CuckooHashMapNT.hh:510-520 | resetBit makes getBit false at pos and leaves every other bit |
| CuckooBits.GetBit | CuckooHashMapNT.hh:510-512 | getBit holds exactly when the bitset contains the whole single bit 1 << pos |
| CuckooBits.SetBit | CuckooHashMapNT.hh:514-516 | after setBit, getBit holds at pos |
| CuckooBits.ResetBit | CuckooHashMapNT.hh:518-520 | after resetBit, getBit fails at pos |
| MassTransVersion.VersionMaskIsCounter | MassTrans.hh:690-693 | version_mask is the complement of the lock, invalid and valid_check_only bits and shares no bit with any of them |
| MassTransVersion.VersionCheckMeaning | MassTrans.hh:713-715 | versionCheck holds exactly when the counter bits of the two words agree, so the status bits never affect it |
| MassTransVersion.VersionCheck | MassTrans.hh:713-715 | words that pass versionCheck have the same counter bits |
| MassTransVersion.IsLocked | MassTrans.hh:723-725 | is_locked tests the top bit, so the locked words are exactly those at or above the lock bit |
| MassTransVersion.Incremented | MassTrans.hh:716-722 | inc_version increments the counter modulo 2^29, keeps the lock and valid_check_only bits, clears the invalid bit, and the result no longer checks equal to the old word |
| MassTransVersion.Unlocked | MassTrans.hh:735-740 | unlock leaves a word that is not locked, differs from the old one only in the lock bit, and still checks equal to it |
| MassTransVersion.Locked | MassTrans.hh:726-734 | a successful lock leaves a locked word that differs only in the lock bit and checks equal to the old one |
| MassTransVersion.LockUnlockRoundTrip | MassTrans.hh:726-740 | locking and then unlocking an unlocked word restores it exactly |
| MassTransVersion.VersionedValue.constructor | MassTrans.hh:334 | a new versioned value holds the given version word |
| MassTransVersion.VersionedValue.IncVersion | MassTrans.hh:716-722 | on a locked value, the version becomes the incremented word |
| MassTransVersion.VersionedValue.Lock | MassTrans.hh:726-734 | on an unlocked value, the version becomes the locked word |
| MassTransVersion.VersionedValue.Unlock | MassTrans.hh:735-740 | on a locked value, the version becomes the unlocked word |
| MassTransVersion.TagRoundTrip | MassTrans.hh:695-711 | tag_inter makes a pointer internode, untag_inter makes it not, and untagging a tagged aligned pointer gives it back |
| MassTransVersion.TagInter | MassTrans.hh:699-702 | tag_inter gives an internode pointer and keeps every other bit of the pointer |
| MassTransVersion.UntagInter | MassTrans.hh:704-707 | untag_inter gives a pointer that is not internode and keeps every other bit of the pointer |
| MassTransVersion.IsInter | MassTrans.hh:708-711 | is_inter holds exactly for odd pointer words |
| ArtNodeHeader.VersionBumped | ARTNode.hh:627-631 | update_version_number keeps the three status bits and increments the version number above them modulo 2^61 |
| ArtNodeHeader.StatusBitsIdempotent | ARTNode.hh:605-615 | set_must_grow and invalidate are idempotent and never change the version number |
| ArtNodeHeader.DecrementClearsLock | ARTNode.hh:598-603 | on a locked header, the decrement unlock performs clears exactly the lock bit |
| ArtNodeHeader.Released | ARTNode.hh:598-603 | the header unlock leaves is unlocked and has the same version number |
| ArtNodeHeader.ArtNode.constructor | ARTNode.hh:37 | a new node has header 0 and is a leaf |
| ArtNodeHeader.ArtNode.GetVersionNumber | ARTNode.hh:171-174 | the version number is the header above the status bits, below 2^61 |
| ArtNodeHeader.ArtNode.TryLock | ARTNode.hh:591-596 | run alone, try_lock succeeds exactly when the node was unlocked, and then sets only the lock bit; otherwise the header is unchanged |
| ArtNodeHeader.ArtNode.Unlock | ARTNode.hh:598-603 | on a locked node, the header becomes the released header |
| ArtNodeHeader.ArtNode.SetMustGrow | ARTNode.hh:605-620 | sets the must-grow bit, so must_grow() holds afterwards, and keeps the version number |
| ArtNodeHeader.ArtNode.Invalidate | ARTNode.hh:611-625 | sets the invalid bit, so is_invalid() holds afterwards, and keeps the version number |
| ArtNodeHeader.ArtNode.UpdateVersionNumber | ARTNode.hh:627-631 | the header becomes the bumped header |
| ArtNodeHeader.IsValidReportsInvalidation | ARTNode.hh:578-583 | is_valid() and is_invalid() report the same bit, the invalidation flag its comment describes |
| ArtNodeHeader.ArtNode.IsLocked | ARTNode.hh:574-576 | is_locked holds exactly for an odd header |
| ArtNodeHeader.ArtNode.IsValid | ARTNode.hh:581-583 | is_valid reports bit 1 of the header, the invalid flag, despite its name |
| ArtNodeHeader.ArtNode.MustGrow | ARTNode.hh:618-620 | must_grow reports bit 2 of the header |
| ArtNodeHeader.ArtNode.IsInvalid | ARTNode.hh:623-625 | is_invalid reports bit 1 of the header |
| IntBits.Max | fc_benchmark_15_6_2010/framework/cpp_framework.h:48 | Math::Max returns one of its arguments, no smaller than either |
| IntBits.Min | fc_benchmark_15_6_2010/framework/cpp_framework.h:49 | Math::Min returns one of its arguments, no larger than either |
| IntBits.HighestOneBitIsTopBit | fc_benchmark_15_6_2010/framework/cpp_framework.h:1499-1507 | highestOneBit (with the logical shifts intended) returns a single bit or zero, nonzero and at most i for nonzero i, and no bit of i lies above it |
| IntBits.HighestOneBit | fc_benchmark_15_6_2010/framework/cpp_framework.h:1499-1507 | highestOneBit (with the logical shifts intended) is zero exactly for zero, and the sign bit for every negative argument |
| IntBits.HighestOneBitAsWritten | fc_benchmark_15_6_2010/framework/cpp_framework.h:1499-1507 | highestOneBit as written, with arithmetic shifts, returns 0 for every negative argument |
| IntBits.HighestOneBitAsWrittenOnNonNegative | fc_benchmark_15_6_2010/framework/cpp_framework.h:1499-1507 | on non-negative arguments the arithmetic-shift code as written agrees with the intended one |
| IntBits.HighestOneBitAsWrittenOnMinusOne | fc_benchmark_15_6_2010/framework/cpp_framework.h:1499-1507 | on -1 the code as written answers 0 where the intended answer is the sign bit |
| IntBits.LowestOneBit | fc_benchmark_15_6_2010/framework/cpp_framework.h:1509-1512 | lowestOneBit is zero exactly for zero, otherwise a single bit of i with no set bit of i below it |
| IntBits.NumberOfLeadingZeros | fc_benchmark_15_6_2010/framework/cpp_framework.h:1514-1525 | numberOfLeadingZeros (with the intended logical final shift) is 32 exactly for zero |
| IntBits.NumberOfLeadingZerosNormalises | fc_benchmark_15_6_2010/framework/cpp_framework.h:1514-1525 | for nonzero i the (intended) count is below 32 and shifting i left by it brings its top set bit to the sign position |
| IntBits.NumberOfLeadingZerosNothingAbove | fc_benchmark_15_6_2010/framework/cpp_framework.h:1514-1525 | no bit of i lies within the counted leading zeros |
| IntBits.NumberOfLeadingZerosAsWrittenOn0x8000 | fc_benchmark_15_6_2010/framework/cpp_framework.h:1514-1525 | on 0x8000 the code as written, with an arithmetic final shift, answers 18 where the count is 16 |
| IntBits.NumberOfLeadingZerosAsWritten | fc_benchmark_15_6_2010/framework/cpp_framework.h:1514-1525 | numberOfLeadingZeros as written returns 32 for zero and 2 for every negative argument, whose count is 0 |
| IntBits.NumberOfTrailingZeros | fc_benchmark_15_6_2010/framework/cpp_framework.h:1527-1537 | the (intended) count is 32 for zero; otherwise bit n of i is set and no lower bit is |
| IntBits.NumberOfTrailingZerosAsWrittenOnOne | fc_benchmark_15_6_2010/framework/cpp_framework.h:1527-1537 | on 1 the code as written answers 2 where the count is 0 |
| IntBits.NumberOfTrailingZerosAsWritten | fc_benchmark_15_6_2010/framework/cpp_framework.h:1527-1537 | numberOfTrailingZeros as written returns the count or the count plus 2 |
| IntBits.Signum | fc_benchmark_15_6_2010/framework/cpp_framework.h:1557-1560 | signum (with a logical second shift) is 0 for zero, 1 for positive and -1 for negative arguments |
| IntBits.SignumAsWrittenOnFive | fc_benchmark_15_6_2010/framework/cpp_framework.h:1557-1560 | on 5 the code as written, with two arithmetic shifts, answers -1 where the sign is 1 |
| IntBits.SignumAsWritten | fc_benchmark_15_6_2010/framework/cpp_framework.h:1557-1560 | signum as written returns 0 for zero and -1 for every other argument, positive ones included |
| IntBits.CeilLog2Unique | fc_benchmark_15_6_2010/framework/cpp_framework.h:1570-1586 | the least exponent whose power of two reaches i is unique |
| IntBits.NearestPowerOfTwo | fc_benchmark_15_6_2010/framework/cpp_framework.h:1570-1576 | the doubling loop returns the least power of two that is at least i |
| IntBits.Log2 | fc_benchmark_15_6_2010/framework/cpp_framework.h:1578-1586 | the doubling loop counts the least exponent c with 2^c >= i |
| IntToText.DigitIsTable | fc_benchmark_15_6_2010/framework/cpp_framework.h:1602 | the digit characters are those of the dig table |
| IntToText.Magnitude | fc_benchmark_15_6_2010/framework/cpp_framework.h:1608-1612 | the unsigned number written fits 32 bits and, in radix 10, is the absolute value |
| IntToText.WriteLowFirst | fc_benchmark_15_6_2010/framework/cpp_framework.h:1613-1616 | the do-while loop writes the digits of v least significant first, at least one digit |
| IntToText.WriteDigits | fc_benchmark_15_6_2010/framework/cpp_framework.h:1608-1619 | the string before reversal is the low-first digits followed by '-' for a negative radix-10 value |
| IntToText.ItoaAsWritten | fc_benchmark_15_6_2010/framework/cpp_framework.h:1601-1623 | where the swap loop ends, it reverses only the first n/2 + 1 characters |
| IntToText.ItoaAsWrittenNeverMeets | fc_benchmark_15_6_2010/framework/cpp_framework.h:1620-1621 | when n/2 is odd, p and q never meet |
| IntToText.ItoaAsWrittenOn1234 | fc_benchmark_15_6_2010/framework/cpp_framework.h:1601-1623 | 1234 comes out as "2341", and 10 has a length on which the loop never ends |
| IntToText.Itoa | fc_benchmark_15_6_2010/framework/cpp_framework.h:1601-1623 | with the reversal intended, the result is the whole raw string reversed |
| IntToText.DigitsRoundTrip | fc_benchmark_15_6_2010/framework/cpp_framework.h:1613-1621 | the reversed digits read back in the radix as the number written, and do not start with '-' |
| IntToText.ItoaRoundTrip | fc_benchmark_15_6_2010/framework/cpp_framework.h:1601-1623 | every 32-bit int printed in radix 10 reads back as itself |
| SnapshotCounter.BuildSeqValue | fc_benchmark_15_6_2010/framework/cpp_framework.h:1802-1810 | the corrected build_seq_value packs so that get_seq gives back the sequence and get_size the value, for every pair of ints |
| SnapshotCounter.UnpackRoundTrip | fc_benchmark_15_6_2010/framework/cpp_framework.h:1802-1810 | every word is the packing of its own get_seq and get_size |
| SnapshotCounter.AsWrittenOnNonNegative | fc_benchmark_15_6_2010/framework/cpp_framework.h:1808-1810 | for a non-negative value the written packing equals the corrected one |
| SnapshotCounter.BuildSeqValueAsWritten | fc_benchmark_15_6_2010/framework/cpp_framework.h:1807-1809 | build_seq_value as written: get_size gives back the value; get_seq gives back the sequence for a non-negative value and reads -1 for a negative one, whatever the sequence |
| SnapshotCounter.GetSeq | fc_benchmark_15_6_2010/framework/cpp_framework.h:1804-1806 | get_seq is the high half of the word |
| SnapshotCounter.GetSize | fc_benchmark_15_6_2010/framework/cpp_framework.h:1801-1803 | get_size is the low half of the word, and the two halves together make up the whole word |
| SnapshotCounter.AfterUpdate | fc_benchmark_15_6_2010/framework/cpp_framework.h:1867-1873 | the corrected update: the recent word holds the current sequence and the new value; the old recent word moves to prev exactly when its sequence differs from the current one |
| SnapshotCounter.AfterUpdateAsWritten | fc_benchmark_15_6_2010/framework/cpp_framework.h:1867-1873 | update as written: the old recent word moves to prev exactly when its sequence differs from the current one; the recent word gives back the new value, and the current sequence only when the value is non-negative (-1 otherwise) |
| SnapshotCounter.AsWrittenUpdateOnNonNegative | fc_benchmark_15_6_2010/framework/cpp_framework.h:1808-1873 | for a non-negative value the update as written equals the corrected update |
| SnapshotCounter.AsWrittenUpdateKeepsOrder | fc_benchmark_15_6_2010/framework/cpp_framework.h:1808-1873 | the update as written keeps prev no later than recent when the sequences do not decrease and the value is non-negative |
| SnapshotCounter.UpdateKeepsOrder | fc_benchmark_15_6_2010/framework/cpp_framework.h:1867-1873 | for the corrected update, updates in non-decreasing sequences keep prev no later than recent, and after the first update of a sequence prev is from an earlier one |
| SnapshotCounter.UpdateSameSeqKeepsPrev | fc_benchmark_15_6_2010/framework/cpp_framework.h:1867-1873 | for the corrected update, a second update in the same sequence leaves prev as the first left it |
| SnapshotCounter.AsWrittenLosesPrev | fc_benchmark_15_6_2010/framework/cpp_framework.h:1808-1810 | with the written packing, dec from 0 in sequence 1 followed by another update in sequence 1 replaces prev by the word written in sequence 1 |
| SnapshotCounter.ProcessData.constructor | fc_benchmark_15_6_2010/framework/cpp_framework.h:1817-1820 | a new ProcessData has both words 0 |
| SnapshotCounter.Counter.constructor | fc_benchmark_15_6_2010/framework/cpp_framework.h:1856-1861 | a new counter has one zeroed ProcessData per process, _gSeq 1 and _gView 0 |
| SnapshotCounter.Counter.Update | fc_benchmark_15_6_2010/framework/cpp_framework.h:1867-1873 | the process's words become AfterUpdateAsWritten of the old ones with _gSeq: the packing as the code writes it |
| SnapshotCounter.Counter.Inc | fc_benchmark_15_6_2010/framework/cpp_framework.h:1874-1880 | update as written (AfterUpdateAsWritten with _gSeq) with the recent value plus one, wrapping as a 32-bit int |
| SnapshotCounter.Counter.Dec | fc_benchmark_15_6_2010/framework/cpp_framework.h:1881-1887 | update as written (AfterUpdateAsWritten with _gSeq) with the recent value minus one, wrapping as a 32-bit int |
| SnapshotCounter.Counter.Add | fc_benchmark_15_6_2010/framework/cpp_framework.h:1888-1894 | update as written (AfterUpdateAsWritten with _gSeq) with the recent value plus x, wrapping as a 32-bit int |
| SnapshotCounter.Counter.ValueRequest | fc_benchmark_15_6_2010/framework/cpp_framework.h:1895-1897 | returns the value half of the process's recent word |
| TpccInput.NuRand | benchmark/TPCC_bench.hh:76-79 | given its two draws, nurand lies in [x, y] (the sum wrapping as a 64-bit word) |
| TpccInput.LastNameNum | benchmark/TPCC_bench.hh:95-99 | gen_customer_last_name_num lies in [0, 999], the range to_last_name accepts |
| TpccInput.ToLastName | benchmark/TPCC_bench.hh:101-116 | to_last_name joins the syllables of the three digits of n, 9 to 15 characters |
| TpccInput.LastNameRoundTrip | benchmark/TPCC_bench.hh:101-116 | the three syllables can be read back, so different numbers give different last names |
| TpccInput.NextTransaction | benchmark/TPCC_bench.hh:330-351 | mix 1 always picks new-order; mix 2 picks new-order exactly for draws up to 51 and payment otherwise |
| TpccInput.MixZeroShares | benchmark/TPCC_bench.hh:330-342 | of the 100 draws, mix 0 picks new-order 45 times, payment 43 times and each other type 4 times |
| TpccInput.MixTwoShares | benchmark/TPCC_bench.hh:346-350 | of the 100 draws, mix 2 picks new-order 51 times and payment 49 times |
| TpccInput.AlnumChar | benchmark/TPCC_bench.hh:845-847 | draws 0-25 give a-z, 26-51 give A-Z, 52-61 give 0-9 |
| TpccInput.AlnumRoundTrip | benchmark/TPCC_bench.hh:845-847 | each character gives back the draw it came from, so distinct draws give distinct characters |
| TpccInput.RandomAString | benchmark/TPCC_bench.hh:839-851 | the string has one character per draw, each the character of its draw |
| TpccInput.OwnedWarehouse | benchmark/TPCC_bench.hh:999-1001 | calc_own_w_id is 0 exactly for runners past the last warehouse, otherwise a warehouse id in [1, nwh] |
| TpccInput.OwnedWarehousesDistinct | benchmark/TPCC_bench.hh:999-1001 | two runners never own the same warehouse |
| TpccInput.PartitionWarehouses | benchmark/TPCC_bench.hh:1018-1036 | with at least as many warehouses as runners, the ranges are contiguous, start at 1, end at nwh, and the first nwh % runners runners get one more than nwh / runners |
| TpccInput.AssignRanges | benchmark/TPCC_bench.hh:1019-1034 | the range loop gives runner i q + 1 warehouses for i < r and q otherwise, each range starting after the previous one, the last ending at runners * q + r |
| TpccInput.ShareWarehouses | benchmark/TPCC_bench.hh:1003-1017 | with more runners than warehouses, runner i gets warehouse i / q + 1 for q the rounded-up quotient, a valid id, non-decreasing by at most one per runner |
| TpccInput.CeilDivCovers | benchmark/TPCC_bench.hh:1004 | q runners per warehouse cover every runner |
| BucketHashtable.FirstMatch | datatype/Hashtable.hh:851-858 | the first element from the head whose key is k, with no such key before it; none exactly when no element has key k |
| BucketHashtable.FirstMatchAt | datatype/Hashtable.hh:851-858 | an index holding k with no k before it is the first match |
| BucketHashtable.PutIn | datatype/Hashtable.hh:304-328 | put adds one element exactly when k was absent, and afterwards the first element of k holds the new row |
| BucketHashtable.RemovedFrom | datatype/Hashtable.hh:261-286 | delete drops one element exactly when k was present, and that element alone |
| BucketHashtable.PutThenGet | datatype/Hashtable.hh:288-328 | after a put of k, get of k returns the new row, unless an existing element of k is invalid or deleted, whose flags put leaves as they were |
| BucketHashtable.PutKeepsOthers | datatype/Hashtable.hh:288-328 | a put of k does not change what get returns for any other key |
| BucketHashtable.PutKeepsDistinct | datatype/Hashtable.hh:304-328 | a put never creates a second element for a key |
| BucketHashtable.PutKeepsHomed | datatype/Hashtable.hh:304-328 | a put keeps every element in the bucket its key hashes to |
| BucketHashtable.DeleteKeepsOthers | datatype/Hashtable.hh:261-302 | a delete of k does not change what get returns for any other key |
| BucketHashtable.DeleteRemovesKey | datatype/Hashtable.hh:261-286 | on a bucket without duplicates, a delete leaves no element of k and no duplicates |
| BucketHashtable.DeleteKeepsHomed | datatype/Hashtable.hh:261-286 | a delete keeps the remaining elements in the bucket they hash to |
| BucketHashtable.Hashtable.constructor | datatype/Hashtable.hh:229-234 | a new table has size empty buckets and keeps the hash |
| BucketHashtable.Hashtable.NBuckets | datatype/Hashtable.hh:257-259 | nbuckets is the length of the bucket vector |
| BucketHashtable.Hashtable.FindBucketIdx | datatype/Hashtable.hh:251-256 | the bucket index is hash(k) modulo the bucket count, a valid index |
| BucketHashtable.Hashtable.FindInBucket | datatype/Hashtable.hh:851-858 | the walk from the head stops at the first element of k |
| BucketHashtable.Hashtable.InsertInBucket | datatype/Hashtable.hh:860-874 | the new element becomes the head of its bucket; other buckets are unchanged |
| BucketHashtable.Hashtable.NontransGet | datatype/Hashtable.hh:288-302 | returns the row of the first element of k unless it is absent, invalid or deleted |
| BucketHashtable.Hashtable.NontransPut | datatype/Hashtable.hh:304-328 | the key's bucket becomes PutIn of its old contents, other buckets are unchanged, and no bucket gains a duplicate or a misplaced key |
| BucketHashtable.Hashtable.NontransDelete | datatype/Hashtable.hh:261-286 | returns whether k was present; its bucket becomes RemovedFrom of its old contents, other buckets are unchanged, and the table stays valid |
| TransactionalVector.Erased | datatype/TVector.hh:591-607 | erase keeps the elements before pos and moves each later one down by one |
| TransactionalVector.Inserted | datatype/TVector.hh:609-625 | insert places x at pos, keeps the elements before it and moves each later one up by one |
| TransactionalVector.Resized | datatype/TVector.hh:627-639 | resize gives length n, keeps the first min(n, size) elements and pads with x |
| TransactionalVector.EraseUndoesInsert | datatype/TVector.hh:591-625 | erasing at pos what insert put there gives the vector back |
| TransactionalVector.InsertUndoesErase | datatype/TVector.hh:591-625 | re-inserting an erased element at its place gives the vector back |
| TransactionalVector.ResizeRoundTrip | datatype/TVector.hh:627-639 | growing then shrinking back restores the vector; shrinking keeps the prefix |
| TransactionalVector.ReservedCapacity | datatype/TVector.hh:641-655 | the doubled capacity holds size elements, is at least the old one, and is the old one or twice a capacity still too small |
| TransactionalVector.ReserveIdempotent | datatype/TVector.hh:641-655 | a second reserve of the same size keeps the capacity the first reached |
| TransactionalVector.EmptyAsWritten | datatype/TVector.hh:65-67 | empty() as written is true exactly when the size is nonzero |
| TransactionalVector.EmptyAsWrittenOnNewVector | datatype/TVector.hh:47-67 | a new vector, holding nothing, is reported not empty as written |
| TransactionalVector.TVector.Contents | datatype/TVector.hh:47-67 | the elements are the first size slots of the buffer |
| TransactionalVector.TVector.Empty | datatype/TVector.hh:65-67 | the corrected empty() is true exactly when the vector holds no element, the negation of the written one |
| TransactionalVector.TVector.constructor | datatype/TVector.hh:47-52 | a new vector has capacity 128, size 0 and no constructed slot |
| TransactionalVector.TVector.PushBack | datatype/TVector.hh:105-111 | appends x; the count of constructed slots grows to cover the new size |
| TransactionalVector.TVector.PopBack | datatype/TVector.hh:112-119 | on a non-empty vector drops the last element; otherwise reports out_of_range and changes nothing |
| TransactionalVector.TVector.Erase | datatype/TVector.hh:591-607 | on pos < size the contents become Erased; otherwise reports out_of_range and changes nothing |
| TransactionalVector.TVector.Insert | datatype/TVector.hh:609-625 | on pos <= size the contents become Inserted; otherwise reports out_of_range and changes nothing |
| TransactionalVector.TVector.Resize | datatype/TVector.hh:627-639 | the contents become Resized; the count of constructed slots grows to cover n |
| TransactionalVector.TVector.NontransPushBack | datatype/TVector.hh:127-136 | appends x, constructing a new slot exactly when size equalled the constructed count |
| TransactionalVector.TVector.NontransReserve | datatype/TVector.hh:641-655 | the capacity becomes ReservedCapacity of the old one, every old slot is copied, and size is unchanged |
| TransactionalVector.TVector.Clear | datatype/TVector.hh:582-589 | clear leaves no element and the constructed slots as they were |
| TransactionalVector.TVector.NontransSize | datatype/TVector.hh:188-190 | nontrans_size is the number of elements |
| TransactionalVector.TVector.NontransGet | datatype/TVector.hh:191-194 | nontrans_get(i) is element i of the contents |
| TransactionalVector.TVector.NontransPut | datatype/TVector.hh:195-202 | nontrans_put(i, x) replaces element i and nothing else |
| ColumnLayout.DeclaringFrom | benchmark/Wikipedia_structs_generated.hh:1307-1338 | the chain of tests stops at the first column from f on whose successor starts above c, and every column it skipped starts at or below c |
| ColumnLayout.Scalar | benchmark/Rubis_structs_generated.hh:32-45 | a record of n scalar columns has the well-formed layout with COLCOUNT n; item_row (12), page_row (10), adapting_value (4) and page_value (2) take their `COLUMNS` from it |
| IntToText.LowFirst | fc_benchmark_15_6_2010/framework/cpp_framework.h:1613-1616 | the do-while loop writes at least one digit |
| IntToText.Raw | fc_benchmark_15_6_2010/framework/cpp_framework.h:1608-1619 | the string before reversal is never empty |
| IntToText.PrefixReversed | fc_benchmark_15_6_2010/framework/cpp_framework.h:1620-1621 | the written swap loop keeps the string's length |

## Left out

- Concurrency: locks, spin loops, atomics, fences, hazard pointers and the STM commit protocol are not modelled. Each lock operation is modelled as it behaves when run alone.
- MassTransVersion.VersionedValue.Lock: requires an unlocked version. The spin on a locked version is not modelled.
- Transactional paths of the hashtable and `TVector` (TransItem flags, versions, read and write sets) are not modelled; only the non-transactional and sequential semantics are.
- MVCC variants, the ordered and unordered indexes, and the Masstree and ART tree paths depend on code that is not part of this model.
- Floating point (random numbers, load factors, the log2 and ceil of `reserve_calc`, order-line amounts) is not modelled.
- Random draws are parameters: the two draws of NURand, the draw of `next_transaction`, and the draws of `random_a_string`.
- `gen_customer_id` is not modelled separately. It is NURand with fixed constants, which `TpccInput.NuRand` covers.
- The `last_names` syllable table is defined in a file that is not part of this model. The syllables follow clause 4.3.2.3 of the TPC-C standard.
- `user0_bit` (a TransItem constant) and `SLOT_PER_BUCKET` are defined in files that are not part of this model. They are parameters, constrained to a single bit and to a positive slot count.
- IntBits.NearestPowerOfTwo: requires i <= 2^31. Above that, the doubling loop on a 32-bit int never reaches i.
- IntBits.Log2: requires i <= 2^31, for the same reason.
- `rotateLeft`, `rotateRight`, `reverse`, `reverseBytes`, `bitCount`, `parseInt`, `lsbBitIndx` and `msbBitIndx` of the framework's `Integer` are not modelled. They are not used by the modelled code.
- IntToText.ItoaAsWritten: requires n/2 to be even. On any other length the as-written loop never ends, which IntToText.ItoaAsWrittenNeverMeets states.
- The `scan` operation of `SnapshotCounter` is not modelled. It is a retry loop over concurrent reads.
- SnapshotCounter.AfterUpdate: states the corrected packing, not the one the code runs; SnapshotCounter.AfterUpdateAsWritten is the update as written, and the two agree on non-negative values.
- SnapshotCounter.UpdateKeepsOrder: holds of the corrected update only; for the update as written, SnapshotCounter.AsWrittenUpdateKeepsOrder covers non-negative values and SnapshotCounter.AsWrittenLosesPrev shows what a negative one breaks.
- SnapshotCounter.UpdateSameSeqKeepsPrev: holds of the corrected update only, for the same reason.
- SnapshotCounter.Counter.Inc: `recent_value() + 1` overflowing an int is undefined behaviour in C++; the model wraps it to 32 bits. The same holds for `- 1` in SnapshotCounter.Counter.Dec and `+ x` in SnapshotCounter.Counter.Add.
- SnapshotCounter.Counter.Dec: the overflow of `- 1` is modelled as a 32-bit wrap, as above.
- SnapshotCounter.Counter.Add: the overflow of `+ x` is modelled as a 32-bit wrap, as above.
- BucketHashtable.Hashtable.constructor: requires at least one bucket, since the source's `%` by zero would be undefined. The hash function is a parameter.
- Bucket linked lists are modelled as sequences, so node identity and aliasing are not captured.
- BucketHashtable.Hashtable.InsertInBucket: the source inserts `value_type()` and later fills it in; the model passes the value directly.
- TransactionalVector.ReservedCapacity: does not model a signed overflow of the capacity doubling.
- TransactionalVector.TVector.NontransReserve: does not model that overflow either.
- Thread, lock, semaphore and atomic classes, benchmark drivers and tests (I/O, threads, command-line parsing) are not modelled.

## Findings

| source | as written | input that shows it | evidently intended | confidence | as-written member | corrected member |
|---|---|---|---|---|---|---|
| fc_benchmark_15_6_2010/framework/cpp_framework.h:1499-1507 | `highestOneBit` shifts a signed int with `>>` (arithmetic) where Java uses `>>>` | i = -1 gives 0 | 0x80000000, the top set bit | not executed | IntBits.HighestOneBitAsWrittenOnMinusOne | IntBits.HighestOneBitIsTopBit |
| fc_benchmark_15_6_2010/framework/cpp_framework.h:1514-1525 | `numberOfLeadingZeros` ends with an arithmetic `i >> 31` | i = 0x8000 gives 18 | 16 | not executed | IntBits.NumberOfLeadingZerosAsWrittenOn0x8000 | IntBits.NumberOfLeadingZerosNormalises |
| fc_benchmark_15_6_2010/framework/cpp_framework.h:1527-1537 | `numberOfTrailingZeros` ends with an arithmetic shift of `i << 1` | i = 1 gives 2 | 0 | not executed | IntBits.NumberOfTrailingZerosAsWrittenOnOne | IntBits.NumberOfTrailingZeros |
| fc_benchmark_15_6_2010/framework/cpp_framework.h:1557-1560 | `signum` uses `>>` where Java uses `>>>` on the negated value | i = 5 gives -1 | 1 | not executed | IntBits.SignumAsWrittenOnFive | IntBits.Signum |
| fc_benchmark_15_6_2010/framework/cpp_framework.h:1620-1621 | the reversal loop sets `q = p + n/2` and swaps until `p == q` | value 1234 gives "2341"; value 10 ("10", n/2 = 1) never ends | the digits in reverse, i.e. "1234" | not executed | IntToText.ItoaAsWrittenOn1234 | IntToText.ItoaRoundTrip |
| fc_benchmark_15_6_2010/framework/cpp_framework.h:1808-1810 | `build_seq_value` casts the int value to 64 bits with sign extension, overwriting the sequence half | value -1 under seq 1 packs a word whose sequence half reads -1 | seq 1 kept in the high half, -1 in the low half | not executed | SnapshotCounter.BuildSeqValueAsWritten | SnapshotCounter.UnpackRoundTrip |
| fc_benchmark_15_6_2010/framework/cpp_framework.h:1808-1873 | the clobbered sequence makes a second update in the same sequence look like a new one | from an empty slot, update(seq 1, -1) then update(seq 1, 0) overwrites the saved previous word | the saved previous word kept across updates in one sequence | not executed | SnapshotCounter.AsWrittenLosesPrev | SnapshotCounter.UpdateSameSeqKeepsPrev |
| datatype/TVector.hh:65-67 | `empty()` returns `size() != 0` | a new vector reports not empty | `size() == 0` | not executed | TransactionalVector.EmptyAsWrittenOnNewVector | TransactionalVector.TVector.Empty |
