/** The formats as bytes: one small value of each, written out. Every number has its most
    significant byte first; lengths take eight bytes and identities thirty-two. */
module CodecLayouts {
  import opened Bytes
  import opened CausalGraph
  import opened CodecPrimitives
  import opened CoreTypes
  import opened DomainKeyOrder
  import opened DomainMachine
  import opened RangeAssembly
  import ProjectionCodec
  import SyncRecordCodec
  import TrustedStateCodec
  import WireCodec

  function U64(b: Byte): seq<Byte> { Zeros(7) + [b] }

  function Id32(b: Byte): seq<Byte> { Zeros(31) + [b] }

  lemma Small(n: nat, b: Byte)
    requires n == b as nat
    ensures LengthBytes(n) == U64(b) && IdBytes(n) == Id32(b)
  {
    SmallBE(n, b, 8);
    SmallBE(n, b, ID_BYTES);
  }

  lemma Numbers()
    ensures LengthBytes(0) == U64(0) && LengthBytes(1) == U64(1) && LengthBytes(2) == U64(2)
    ensures IdBytes(1) == Id32(1) && IdBytes(2) == Id32(2) && IdBytes(3) == Id32(3)
    ensures IdBytes(5) == Id32(5) && IdBytes(7) == Id32(7)
  {
    hide LengthBytes, IdBytes, U64, Id32;
    NatOfByte(0);
    Small(0, 0);
    Small(1, 1);
    Small(2, 2);
    Small(3, 3);
    Small(5, 5);
    Small(7, 7);
  }

  lemma VersionOne(magic: seq<Byte>)
    ensures HeaderBytes(magic) == magic + [0, 1]
  {
    SmallBE(1, 1, 2);
    assert Zeros(1) == [0];
  }

  lemma Magics()
    ensures ProjectionCodec.ProjectionMagic() == [65, 80, 67, 83, 89, 78, 67, 49]
    ensures TrustedStateCodec.SnapshotMagic() == [65, 80, 67, 76, 82, 69, 67, 49]
    ensures TrustedStateCodec.ContainerMagic() == [65, 80, 67, 76, 83, 69, 84, 49]
    ensures SyncRecordCodec.RecordMagic() == [65, 80, 67, 83, 82, 69, 67, 49]
    ensures WireCodec.PartMagic() == [65, 80, 67, 83, 80, 82, 84, 49]
  {
    assert Char('A') == 65 && Char('P') == 80 && Char('C') == 67 && Char('S') == 83 && Char('Y') == 89;
    assert Char('N') == 78 && Char('1') == 49 && Char('L') == 76 && Char('R') == 82 && Char('E') == 69 && Char('T') == 84;
  }

  lemma Listings()
    ensures Ascending({}) == [] && Ascending({2}) == [2] && Ascending({5}) == [5] && Ascending({2, 3}) == [2, 3]
  {
    var two: set<Id>, five: set<Id>, both: set<Id> := {2}, {5}, {2, 3};
    AscendingStep(two, 2);
    AscendingStep(five, 5);
    AscendingStep(both, 2);
    AscendingStep(both - {2}, 3);
    assert two - {2} == {} && five - {5} == {} && both - {2} == {3} && {3} - {3} == {};
  }

  // ---------------------------------------------------------------- statements

  lemma Sets()
    ensures IdSetBytes({}) == U64(0) && IdSetBytes({2}) == U64(1) + Id32(2)
  {
    hide LengthBytes, IdBytes, U64, Id32;
    Numbers();
    Listings();
    var none: set<Id>, two: set<Id> := {}, {2};
    assert |none| == 0 && |two| == 1;
    assert IdListBytes([]) == [] && IdListBytes([2]) == IdBytes(2) + IdListBytes([]);
  }

  /** Identity, length and bytes of the value, number of parents and the parents. */
  lemma StatementLayout()
    ensures StatementBytes(2, [5], {}) == Id32(2) + (U64(1) + [5] + U64(0))
    ensures StatementBytes(3, [6], {2}) == Id32(3) + (U64(1) + [6] + (U64(1) + Id32(2)))
    ensures StatementBytes(7, [8], {2}) == Id32(7) + (U64(1) + [8] + (U64(1) + Id32(2)))
  {
    hide LengthBytes, IdBytes, U64, Id32, IdSetBytes;
    Numbers();
    Sets();
  }

  function Two(): Graph<Content> {
    map[2 := Revision(2, [5], {})]
  }

  function TwoAndThree(): Graph<Content> {
    map[2 := Revision(2, [5], {}), 3 := Revision(3, [6], {2})]
  }

  lemma FirstStatement(m: map<Id, Revision<Content>>, order: seq<Id>, k: Id, rest: seq<Id>)
    requires (forall x :: x in order ==> x in m) && order == [k] + rest
    ensures StatementListBytes(m, order) == StatementBytes(k, m[k].value, m[k].parents) + StatementListBytes(m, rest)
  {
    assert order[1..] == rest;
  }

  lemma OneStatement(m: map<Id, Revision<Content>>)
    requires m.Keys == {2}
    ensures StatementMapBytes(m) == U64(1) + StatementBytes(2, m[2].value, m[2].parents)
  {
    hide LengthBytes, U64, StatementBytes, StatementListBytes, Ascending;
    Numbers();
    Listings();
    assert |m| == |m.Keys|;
    FirstStatement(m, [2], 2, []);
    NoStatements(m);
  }

  lemma TwoStatements(m: map<Id, Revision<Content>>)
    requires m.Keys == {2, 3}
    ensures StatementMapBytes(m) == U64(2) + (StatementBytes(2, m[2].value, m[2].parents) + StatementBytes(3, m[3].value, m[3].parents))
  {
    hide LengthBytes, U64, StatementBytes, StatementListBytes, Ascending, IdBytes, Id32;
    Numbers();
    Listings();
    assert |m| == |m.Keys| == |Ascending(m.Keys)| == 2;
    TwoInOrder(m);
  }

  lemma TwoInOrder(m: map<Id, Revision<Content>>)
    requires m.Keys == {2, 3}
    ensures StatementListBytes(m, [2, 3]) == StatementBytes(2, m[2].value, m[2].parents) + StatementBytes(3, m[3].value, m[3].parents)
  {
    hide StatementBytes, StatementListBytes;
    FirstStatement(m, [2, 3], 2, [3]);
    FirstStatement(m, [3], 3, []);
    NoStatements(m);
  }

  /** Number of statements, then each of them by ascending identity. */
  lemma RegisterLayout()
    ensures StatementMapBytes(Two()) == U64(1) + StatementBytes(2, [5], {})
    ensures StatementMapBytes(TwoAndThree()) == U64(2) + (StatementBytes(2, [5], {}) + StatementBytes(3, [6], {2}))
  {
    hide U64, StatementBytes, StatementMapBytes;
    OneStatement(Two());
    TwoStatements(TwoAndThree());
  }

  lemma NoStatements(m: map<Id, Revision<Content>>)
    ensures StatementListBytes(m, []) == []
  {
  }

  // ---------------------------------------------------------------- projections

  lemma OneKey(d: DomainKey)
    ensures KeyOrder({d}) == [d]
  {
    var one: set<DomainKey> := {d};
    assert IsLeastKey(d, one);
    KeyOrderStep(one, d);
    assert one - {d} == {};
  }

  /** Magic and version, number of domains; for each its atom, its identifier and its register. */
  lemma ProjectionLayout()
    ensures var p: Projection := map[DomainKey(1, [100]) := TwoAndThree()];
            ProjectionCodec.ProjectionBytes(p) ==
            [65, 80, 67, 83, 89, 78, 67, 49] + [0, 1] + (U64(1) + (Id32(1) + (U64(1) + [100] + StatementMapBytes(TwoAndThree()))))
  {
    hide LengthBytes, IdBytes, U64, Id32, StatementMapBytes, ProjectionCodec.ProjectionMagic;
    var d := DomainKey(1, [100]);
    var p: Projection := map[d := TwoAndThree()];
    Numbers();
    Magics();
    VersionOne(ProjectionCodec.ProjectionMagic());
    OneKey(d);
    assert p.Keys == {d} && |p| == |p.Keys|;
    assert ProjectionCodec.DomainListBytes(p, [d]) == ProjectionCodec.DomainBytes(d, p[d]) + ProjectionCodec.DomainListBytes(p, []) by {
      assert [d][1..] == [];
    }
  }

  // ---------------------------------------------------------------- trusted state

  function Sample(): TrustedStateCodec.Snapshot {
    LocalScalarSnapshot(WorkingSnapshot(Two(), Some(WorkingEpoch(7, [8], {2}))), FinalizationSnapshot({2}, Two(), {2}, {}))
  }

  /** Register, pending epoch behind its flag, then local, finalized, exposed and handed-off. */
  lemma SnapshotLayout()
    ensures TrustedStateCodec.SnapshotBytes(Sample()) ==
            [65, 80, 67, 76, 82, 69, 67, 49] + [0, 1] +
            (StatementMapBytes(Two()) + ([1] + StatementBytes(7, [8], {2}) +
              (U64(1) + Id32(2) + (StatementMapBytes(Two()) + (U64(1) + Id32(2) + U64(0))))))
    ensures TrustedStateCodec.PendingBytes(None) == [0]
  {
    hide StatementMapBytes, StatementBytes, IdSetBytes, U64, Id32, TrustedStateCodec.SnapshotMagic;
    Magics();
    VersionOne(TrustedStateCodec.SnapshotMagic());
    Sets();
    Flags();
  }

  lemma Flags()
    ensures ToBE(0, 1) == [0] && ToBE(1, 1) == [1]
  {
    NatOfByte(0);
    SmallBE(0, 0, 1);
    SmallBE(1, 1, 1);
  }

  lemma ContainerLayout()
    ensures var c: TrustedStateCodec.Container := map[DomainKey(1, [100]) := Sample()];
            TrustedStateCodec.ContainerBytes(c) ==
            [65, 80, 67, 76, 83, 69, 84, 49] + [0, 1] +
            (U64(1) + (Id32(1) + (U64(1) + [100] + (LengthBytes(|TrustedStateCodec.SnapshotBytes(Sample())|) + TrustedStateCodec.SnapshotBytes(Sample())))))
  {
    hide LengthBytes, IdBytes, U64, Id32, TrustedStateCodec.SnapshotBytes, TrustedStateCodec.ContainerMagic, Sample;
    var d := DomainKey(1, [100]);
    var c: TrustedStateCodec.Container := map[d := Sample()];
    Numbers();
    Magics();
    VersionOne(TrustedStateCodec.ContainerMagic());
    OneKey(d);
    assert c.Keys == {d} && |c| == |c.Keys|;
    assert TrustedStateCodec.EntryListBytes(c, [d]) == TrustedStateCodec.EntryBytes(d, c[d]) + TrustedStateCodec.EntryListBytes(c, []) by {
      assert [d][1..] == [];
    }
  }

  // ---------------------------------------------------------------- records and parts

  /** Trusted state, optional cursor, then each entry: identity, cursor and objects. */
  lemma RecordLayout()
    ensures SyncRecordCodec.RecordBytes(SyncRecordCodec.ByteRecord([9], Some([4]), map[5 := SyncRecordCodec.ByteEntry(5, None, [[6], [7]])])) ==
            [65, 80, 67, 83, 82, 69, 67, 49] + [0, 1] +
            (U64(1) + [9] + ([1] + (U64(1) + [4]) +
              (U64(1) + (Id32(5) + ([0] + (U64(2) + (U64(1) + [6] + (U64(1) + [7]))))))))
  {
    hide LengthBytes, IdBytes, U64, Id32, SyncRecordCodec.RecordMagic;
    var e := SyncRecordCodec.ByteEntry(5, None, [[6], [7]]);
    var m := map[5 := e];
    Numbers();
    Magics();
    VersionOne(SyncRecordCodec.RecordMagic());
    Flags();
    Listings();
    assert m.Keys == {5} && |m| == |m.Keys|;
    TwoObjects();
    assert SyncRecordCodec.EntryListBytes(m, [5]) == SyncRecordCodec.EntryBytes(e) + SyncRecordCodec.EntryListBytes(m, []) by {
      assert [5][1..] == [];
    }
  }

  lemma TwoObjects()
    ensures SyncRecordCodec.ObjectListBytes([[6], [7]]) == U64(1) + [6] + (U64(1) + [7])
  {
    hide LengthBytes, U64;
    Numbers();
    var objects: seq<seq<Byte>> := [[6], [7]];
    assert objects[1..] == [[7]] && objects[1..][1..] == [];
    assert SyncRecordCodec.ObjectListBytes(objects[1..]) == BlobBytes([7]) + [];
  }

  lemma U32s()
    ensures ToBE(1, 4) == [0, 0, 0, 1] && ToBE(2, 4) == [0, 0, 0, 2]
  {
    SmallBE(1, 1, 4);
    SmallBE(2, 2, 4);
    assert Zeros(3) == [0, 0, 0];
  }

  /** Publication, index and number of parts in four bytes each, then the payload. */
  lemma PartLayout()
    ensures WireCodec.PartBytes(WireCodec.ProtectedSyncPart(5, 1, 2, [9])) ==
            [65, 80, 67, 83, 80, 82, 84, 49] + [0, 1] + (Id32(5) + ([0, 0, 0, 1] + ([0, 0, 0, 2] + (U64(1) + [9]))))
  {
    hide IdBytes, U64, Id32, WireCodec.PartMagic, HeaderBytes, ToBE;
    Numbers();
    Magics();
    VersionOne(WireCodec.PartMagic());
    U32s();
    assert LengthBytes(1) == U64(1);
  }
}
