/** The buffers the codecs work on: appending writers, and a reader that advances a position.
    Each is exactly its reading or writing function. */
module CodecIo {
  import opened Bytes
  import opened CausalGraph
  import opened CodecPrimitives
  import opened CoreTypes
  import opened ScalarRegisters

  // ---------------------------------------------------------------- writing

  method WriteBlob(out: seq<Byte>, b: seq<Byte>) returns (next: seq<Byte>)
    requires LengthFits(|b|)
    ensures next == out + BlobBytes(b)
  {
    next := out + LengthBytes(|b|);
    next := next + b;
  }

  method WriteIdSet(out: seq<Byte>, s: set<Id>) returns (next: seq<Byte>)
    requires LengthFits(|s|)
    ensures next == out + IdSetBytes(s)
  {
    hide LengthBytes, IdBytes;
    next := out + LengthBytes(|s|);
    var todo := s;
    while todo != {}
      invariant todo <= s
      invariant next + IdListBytes(Ascending(todo)) == out + IdSetBytes(s)
    {
      var id := Least(todo);
      AscendingStep(todo, id);
      todo := todo - {id};
      Regroup(next, IdBytes(id), IdListBytes(Ascending(todo)));
      next := next + IdBytes(id);
    }
  }

  method WriteStatement(out: seq<Byte>, id: Id, value: Content, parents: set<Id>) returns (next: seq<Byte>)
    requires LengthFits(|value|) && LengthFits(|parents|)
    ensures next == out + StatementBytes(id, value, parents)
  {
    hide IdBytes, BlobBytes, IdSetBytes;
    next := out + IdBytes(id);
    next := WriteBlob(next, value);
    next := WriteIdSet(next, parents);
  }

  /** Statements in ascending order of their keys. */
  method WriteStatementMap(out: seq<Byte>, m: map<Id, Revision<Content>>) returns (next: seq<Byte>)
    requires StatementsFit(m)
    ensures next == out + StatementMapBytes(m)
  {
    hide LengthBytes, StatementBytes;
    next := out + LengthBytes(|m|);
    var todo := m.Keys;
    while todo != {}
      invariant todo <= m.Keys
      invariant next + StatementListBytes(m, Ascending(todo)) == out + StatementMapBytes(m)
    {
      var id := Least(todo);
      AscendingStep(todo, id);
      todo := todo - {id};
      Regroup(next, StatementBytes(id, m[id].value, m[id].parents), StatementListBytes(m, Ascending(todo)));
      next := WriteStatement(next, id, m[id].value, m[id].parents);
    }
  }

  // ---------------------------------------------------------------- reading

  /** The outcome of a reading method: the function's value, with the position just after it. */
  ghost predicate Did<T>(spec: Reading<T>, r: Result<T, CodecError>, rest: seq<Byte>) {
    match spec
    case Err(e) => r == Err(e)
    case Ok(p) => r == Ok(p.value) && rest == p.rest
  }

  class Reader {
    const bytes: seq<Byte>
    var position: nat

    ghost predicate Valid()
      reads this
    {
      position <= |bytes|
    }

    ghost function Rest(): seq<Byte>
      requires Valid()
      reads this
    {
      bytes[position..]
    }

    constructor (bytes: seq<Byte>)
      ensures Valid() && Rest() == bytes
    {
      this.bytes, position := bytes, 0;
    }

    method IsFinished() returns (done: bool)
      requires Valid()
      ensures done <==> Rest() == []
    {
      done := position == |bytes|;
    }

    method ReadExact(len: nat) returns (r: Result<seq<Byte>, CodecError>)
      requires Valid()
      modifies this
      ensures Valid() && Did(Take(old(Rest()), len), r, Rest())
    {
      var end := position + len;
      if end > |bytes| { return Err(UnexpectedEof); }
      var slice := bytes[position..end];
      assert slice == Rest()[..len] && bytes[end..] == Rest()[len..];
      position := end;
      r := Ok(slice);
    }

    /** Big-endian numbers of one, two, four, eight and thirty-two bytes. */
    method ReadNumber(width: nat) returns (r: Result<nat, CodecError>)
      requires Valid()
      modifies this
      ensures Valid() && Did(ReadNat(old(Rest()), width), r, Rest())
    {
      var b := ReadExact(width);
      match b {
        case Err(e) => r := Err(e);
        case Ok(s) => r := Ok(FromBE(s));
      }
    }

    method ReadBytes() returns (r: Result<seq<Byte>, CodecError>)
      requires Valid()
      modifies this
      ensures Valid() && Did(ReadBlob(old(Rest())), r, Rest())
    {
      hide ReadNat, Take;
      var n := ReadNumber(8);
      match n {
        case Err(e) => r := Err(e);
        case Ok(len) => r := ReadExact(len);
      }
    }

    method ReadHeaderOf(magic: seq<Byte>) returns (r: Result<Unit, CodecError>)
      requires Valid()
      modifies this
      ensures Valid() && Did(ReadHeader(old(Rest()), magic), r, Rest())
    {
      hide ReadNat, Take;
      var m := ReadExact(|magic|);
      match m {
        case Err(e) => return Err(e);
        case Ok(tag) => if tag != magic { return Err(InvalidMagic); }
      }
      var v := ReadNumber(2);
      match v {
        case Err(e) => r := Err(e);
        case Ok(version) => r := if version != VERSION then Err(UnsupportedVersion(version)) else Ok(Unit);
      }
    }

    method ReadIdentities() returns (r: Result<set<Id>, CodecError>)
      requires Valid()
      modifies this
      ensures Valid() && Did(ReadIdSet(old(Rest())), r, Rest())
    {
      hide ReadNat;
      var n := ReadNumber(8);
      match n {
        case Err(e) => r := Err(e);
        case Ok(count) =>
          var ids: set<Id> := {};
          var i := 0;
          ghost var start := Rest();
          while i < count
            invariant Valid() && 0 <= i <= count
            invariant ReadIds(Rest(), count - i, ids) == ReadIds(start, count, {})
          {
            var id := ReadNumber(ID_BYTES);
            match id {
              case Err(e) => return Err(e);
              case Ok(v) =>
                if v in ids { return Err(DuplicateRevisionInSet); }
                ids := ids + {v};
            }
            i := i + 1;
          }
          r := Ok(ids);
      }
    }

    method ReadRevision() returns (r: Result<Revision<Content>, CodecError>)
      requires Valid()
      modifies this
      ensures Valid() && Did(ReadStatement(old(Rest())), r, Rest())
    {
      hide ReadNat, ReadBlob, ReadIdSet;
      var id := ReadNumber(ID_BYTES);
      match id {
        case Err(e) => return Err(e);
        case Ok(identity) =>
          var value := ReadBytes();
          match value {
            case Err(e) => return Err(e);
            case Ok(v) =>
              var parents := ReadIdentities();
              match parents {
                case Err(e) => r := Err(e);
                case Ok(ps) => r := Ok(Revision(identity, v, ps));
              }
          }
      }
    }

    method ReadRevisionList() returns (r: Result<seq<Revision<Content>>, CodecError>)
      requires Valid()
      modifies this
      ensures Valid() && Did(ReadStatementList(old(Rest())), r, Rest())
    {
      hide ReadNat, ReadStatement;
      var n := ReadNumber(8);
      match n {
        case Err(e) => r := Err(e);
        case Ok(count) =>
          var list: seq<Revision<Content>> := [];
          var i := 0;
          ghost var start := Rest();
          while i < count
            invariant Valid() && 0 <= i <= count
            invariant ReadStatements(Rest(), count - i, list) == ReadStatements(start, count, [])
          {
            var revision := ReadRevision();
            match revision {
              case Err(e) => return Err(e);
              case Ok(v) => list := list + [v];
            }
            i := i + 1;
          }
          r := Ok(list);
      }
    }

    /** A register is accepted only if its statements form a valid one. */
    method ReadScalarRegister() returns (r: Result<Graph<Content>, CodecError>)
      requires Valid()
      modifies this
      ensures Valid() && Did(ReadRegister(old(Rest())), r, Rest())
    {
      hide ReadNat, ReadStatements, RegisterOf;
      var list := ReadRevisionList();
      match list {
        case Err(e) => r := Err(e);
        case Ok(revisions) => r := ImportRevisions(revisions);
      }
    }
  }

  ghost function ReadStatementList(s: seq<Byte>): Reading<seq<Revision<Content>>> {
    var n :- ReadLength(s);
    ReadStatements(n.rest, n.value, [])
  }

  method ImportRevisions(list: seq<Revision<Content>>) returns (r: Result<Graph<Content>, CodecError>)
    ensures RegisterOf(list).None? ==> r == Err(CodecError.Core)
    ensures RegisterOf(list).Some? ==> r == Ok(RegisterOf(list).value)
  {
    var imported := ScalarRegister.FromRevisions(list);
    match imported {
      case Err(_) => r := Err(CodecError.Core);
      case Ok(register) =>
        ListsDetermine(register.revisions, RegisterOf(list).value, list);
        r := Ok(register.revisions);
    }
  }
}
