/** The per-table schema checks of the main loop of create_tables.py: what is wrong
    with a table declaration, in the order the checks report it. A violation is only
    reported; the table is reconciled all the same. */
module Validation {
  import opened Wrappers
  import opened Constants
  import opened Naming
  import opened Schema

  /** The indices of the descriptors that declare no column. */
  function EmptyIndices(descs: seq<DescriptorSpec>): set<int> {
    set i | 0 <= i < |descs| && descs[i].columns == []
  }

  /** One EmptyDescriptor fault per descriptor that declares no column, in order. */
  function EmptyDescriptorFaults(descs: seq<DescriptorSpec>): (r: seq<TableFault>)
    ensures |r| <= |descs|
    ensures forall k :: 0 <= k < |r| ==> r[k] == EmptyDescriptor
    decreases |descs|
  {
    if descs == [] then []
    else
      EmptyDescriptorFaults(descs[..|descs| - 1]) +
      (if descs[|descs| - 1].columns == [] then [EmptyDescriptor] else [])
  }

  /** There is one fault for each descriptor without columns, no more. */
  lemma {:induction false} EmptyDescriptorFaultsCount(descs: seq<DescriptorSpec>)
    ensures |EmptyDescriptorFaults(descs)| == |EmptyIndices(descs)|
    decreases |descs|
  {
    if descs != [] {
      var n := |descs| - 1;
      var init := descs[..n];
      EmptyDescriptorFaultsCount(init);
      if descs[n].columns == [] {
        assert EmptyIndices(descs) == EmptyIndices(init) + {n};
      } else {
        assert EmptyIndices(descs) == EmptyIndices(init);
      }
    }
  }

  /** A fault is reported exactly when some descriptor declares no column. */
  lemma {:induction false} EmptyDescriptorFaultsExist(descs: seq<DescriptorSpec>)
    ensures EmptyDescriptor in EmptyDescriptorFaults(descs) <==> exists d :: d in descs && d.columns == []
    decreases |descs|
  {
    if descs != [] {
      var n := |descs| - 1;
      var init := descs[..n];
      EmptyDescriptorFaultsExist(init);
      assert forall d :: d in descs <==> d in init || d == descs[n];
    }
  }

  /** The checks on the table itself, in reporting order: a reserved table name, a
      reserved suffix as the suffix check reports it, no columns. */
  function HeadFaults(table: TableSpec): (r: seq<TableFault>)
    ensures ReservedName !in r && NoDescriptors !in r && EmptyDescriptor !in r
    ensures ReservedSuffix in r <==> !SuffixesAllowed(LowerSnake(table.name), ReservedTableSuffixes)
    ensures NoColumns in r <==> table.columns == []
  {
    var t := LowerSnake(table.name);
    (if t in ReservedTableNames then [ReservedName] else []) +
    (if !SuffixesAllowed(t, ReservedTableSuffixes) then [ReservedSuffix] else []) +
    (if |table.columns| < 1 then [NoColumns] else [])
  }

  /** The checks made when a declaration has a descriptors entry: an empty list, and
      each descriptor without columns. A descriptor's name is a string in this model,
      so only its empty column list is reported. */
  function DescriptorFaults(descriptors: Option<seq<DescriptorSpec>>): (r: seq<TableFault>)
    ensures descriptors.None? ==> r == []
  {
    match descriptors
    case None => []
    case Some(descs) => (if |descs| < 1 then [NoDescriptors] else []) + EmptyDescriptorFaults(descs)
  }

  /** The faults of one named table declaration, in reporting order. */
  function TableFaults(table: TableSpec): (r: seq<TableFault>)
    // the reserved table name list is empty
    ensures ReservedName !in r
  {
    HeadFaults(table) + DescriptorFaults(table.descriptors)
  }

  /** Each kind of fault is reported exactly when its condition holds. */
  lemma {:induction false} TableFaultsCharacterised(table: TableSpec)
    ensures var r := TableFaults(table);
            && (ReservedSuffix in r <==> !SuffixesAllowed(LowerSnake(table.name), ReservedTableSuffixes))
            && (NoColumns in r <==> table.columns == [])
            && (NoDescriptors in r <==> table.descriptors == Some([]))
            && (EmptyDescriptor in r <==>
                  table.descriptors.Some? && exists d :: d in table.descriptors.value && d.columns == [])
  {
    if table.descriptors.Some? {
      var descs := table.descriptors.value;
      var tail := EmptyDescriptorFaults(descs);
      EmptyDescriptorFaultsExist(descs);
      assert NoDescriptors !in tail && ReservedSuffix !in tail && NoColumns !in tail;
    }
  }

  /** EmptyDescriptor is reported once per descriptor without columns. */
  lemma {:induction false} TableFaultsCountEmpty(table: TableSpec)
    ensures multiset(TableFaults(table))[EmptyDescriptor] ==
              (if table.descriptors.Some? then |EmptyIndices(table.descriptors.value)| else 0)
  {
    var head := HeadFaults(table);
    assert multiset(head)[EmptyDescriptor] == 0;
    if table.descriptors.Some? {
      var descs := table.descriptors.value;
      var tail := EmptyDescriptorFaults(descs);
      var nd: seq<TableFault> := if |descs| < 1 then [NoDescriptors] else [];
      assert TableFaults(table) == head + nd + tail;
      EmptyDescriptorFaultsCount(descs);
      EveryFaultCounted(tail, EmptyDescriptor);
    }
  }

  /** A sequence holding a single value throughout holds it |s| times. */
  lemma {:induction false} EveryFaultCounted(s: seq<TableFault>, f: TableFault)
    requires forall k :: 0 <= k < |s| ==> s[k] == f
    ensures multiset(s)[f] == |s|
    decreases |s|
  {
    if s != [] {
      var n := |s| - 1;
      EveryFaultCounted(s[..n], f);
      assert s == s[..n] + [s[n]];
    }
  }

  /** A table name whose length is not 10, 20, 22 or 24 is never reported for a
      reserved suffix, whatever it ends with. */
  lemma TableFaultsBySuffixLength(table: TableSpec)
    requires |table.name| !in {10, 20, 22, 24}
    ensures ReservedSuffix !in TableFaults(table)
  {
    TableSuffixCheckByLength(LowerSnake(table.name));
  }

  /** The checks of the main loop on the table itself. */
  method CheckTableHead(table: TableSpec) returns (faults: seq<TableFault>)
    ensures faults == HeadFaults(table)
  {
    var t := ToLowerSnakeCase(table.name);
    var validName := ValidateName(t, ReservedTableNames);
    var validSuffix := ValidateSuffix(t, ReservedTableSuffixes);
    faults := [];
    if !validName {
      faults := faults + [ReservedName];
    }
    if !validSuffix {
      faults := faults + [ReservedSuffix];
    }
    if |table.columns| < 1 {
      faults := faults + [NoColumns];
    }
  }

  /** The checks of the main loop on a descriptors entry. */
  method CheckDescriptors(descs: seq<DescriptorSpec>) returns (faults: seq<TableFault>)
    ensures faults == DescriptorFaults(Some(descs))
  {
    faults := [];
    if |descs| < 1 {
      faults := faults + [NoDescriptors];
    }
    ghost var before := faults;
    for i := 0 to |descs|
      invariant faults == before + EmptyDescriptorFaults(descs[..i])
    {
      assert descs[..i + 1][..i] == descs[..i];
      if |descs[i].columns| == 0 {
        faults := faults + [EmptyDescriptor];
        continue;
      }
    }
    assert descs[..|descs|] == descs;
  }

  /** The checks of the main loop for one named table, in the order it runs them. */
  method CheckTable(table: TableSpec) returns (faults: seq<TableFault>)
    ensures faults == TableFaults(table)
  {
    faults := CheckTableHead(table);
    if table.descriptors.Some? {
      var more := CheckDescriptors(table.descriptors.value);
      faults := faults + more;
    }
  }

  /** The violations reported for the table `t` with faults `faults`. */
  function TableViolations(t: string, faults: seq<TableFault>): (r: seq<Violation>)
    ensures |r| == |faults|
    ensures forall k :: 0 <= k < |r| ==> r[k] == TableViolation(t, faults[k])
  {
    seq(|faults|, k requires 0 <= k < |faults| => TableViolation(t, faults[k]))
  }
}
