/** Every run of the object store, seen from outside: a map from object ids to named byte strings. */
module StoreRuns {
  import opened Blocks
  import opened KeyTable
  import opened StoreModel
  import opened StoreWrite

  datatype Op =
    | Find(key: Key)
    | Create(key: Key)
    | Destroy(key: Key)
    | Rename(key: Key, newName: Key)
    | Read(id: int, want: nat, offset: nat)
    | Write(id: int, buf: seq<Byte>, offset: nat)
    | Stat(id: int)
    | Remount

  /** The return value and, where there are any, the bytes or the block count handed back. */
  datatype Answer = Answer(n: int, bytes: seq<Byte>, blocks: int)

  // ----- the promise, in terms of the map alone -----

  ghost predicate Named(f: Files, id: int, key: Key) {
    id in f && f[id].key == key
  }

  ghost predicate NameTaken(f: Files, key: Key) {
    exists id :: Named(f, id, key)
  }

  /** How many bytes a read answers for: all that are asked for, or all up to the end; from beyond the end, the
      (negative) distance to it. */
  predicate ReadCount(size: int, want: nat, offset: nat, n: int) {
    && (offset <= size ==> n <= want && offset + n <= size && (n == want || offset + n == size))
    && (offset > size ==> offset + n == size)
  }

  /** The number of bytes, clipped to the object, and the bytes the loops of objstore_read fetch: those asked for, if
      the range starts at an indirect block or stays inside one. */
  predicate ReadAnswered(bytes: seq<Byte>, want: nat, offset: nat, a: Answer) {
    && ReadCount(|bytes|, want, offset, a.n)
    && if a.n <= 0 then a.bytes == []
       else
         && a.bytes == ReadBytes(bytes, offset, a.n)
         && (StaysInside(offset, a.n) ==> a.bytes == bytes[offset..offset + a.n])
  }

  lemma ReadAnswers(bytes: seq<Byte>, want: nat, offset: nat, a: Answer)
    requires ReadCount(|bytes|, want, offset, a.n)
    requires a.bytes == if a.n <= 0 then [] else ReadBytes(bytes, offset, a.n)
    ensures ReadAnswered(bytes, want, offset, a)
  {
    if a.n > 0 && StaysInside(offset, a.n) {
      ReadIsSlice(bytes, offset, a.n);
    }
  }

  ghost predicate Allows(f: Files, op: Op, a: Answer, f': Files) {
    match op
    case Find(key) => f' == f && (if NameTaken(f, key) then Named(f, a.n, key) else a.n == -1)
    case Create(key) =>
      if NameTaken(f, key) then a.n == -1 && f' == f
      else a.n >= 2 && a.n !in f && f' == f[a.n := File(key, [])]
    case Destroy(key) =>
      if NameTaken(f, key) then a.n == 0 && (exists id :: Named(f, id, key) && f' == f - {id})
      else a.n == -1 && f' == f
    case Rename(key, newName) =>
      if a.n == -1 then f' == f && (NameTaken(f, key) && |newName| < 32 ==> NameTaken(f, newName))
      else a.n !in f && (exists id :: Named(f, id, key) && f' == (f - {id})[a.n := File(newName, f[id].bytes)])
    case Read(id, want, offset) =>
      f' == f &&
      if id in f then
        ReadAnswered(f[id].bytes, want, offset, a)
      else a.n == -1
    case Write(id, buf, offset) =>
      if id in f then
        && 0 <= a.n <= |buf| && offset + a.n <= 16777216 && (a.n == |buf| || offset + a.n == 16777216)
        && offset <= |f[id].bytes|
        && f' == f[id := File(f[id].key, f[id].bytes[..offset] + buf[..a.n])]
      else a.n == -1 && f' == f
    case Stat(id) =>
      f' == f && if id in f then a.n == |f[id].bytes| && a.blocks * 4096 - 4096 < a.n <= a.blocks * 4096 else a.n == -1
    case Remount => f' == f
  }

  // ----- what the code demands and does, in terms of the store -----

  /** The name is free and there is room for it, or the duplicate check finds that it is not. */
  ghost predicate Detected(objs: seq<Object>, key: Key) {
    if Present(objs, key) then Refused(objs, key) else HasHole(objs)
  }

  ghost predicate Demands(s: Store, op: Op) {
    match op
    case Find(key) => true
    case Create(key) => |key| < 32 && Detected(s.objs, key)
    case Destroy(key) => true
    case Rename(key, newName) =>
      |newName| != 32 && (|newName| < 32 && Present(s.objs, key) ==>
        Detected(s.objs, newName) || (newName == key && Present(s.objs, newName)))
    case Read(id, want, offset) =>
      id < TABLE_SIZE + 2 &&
      (LiveId(s.objs, id) && want > 0 && offset < s.objs[id - 2].size ==> offset % 4096 == 0)
    case Write(id, buf, offset) =>
      id < TABLE_SIZE + 2 && (LiveId(s.objs, id) ==> WriteFits(s.objs[id - 2].size, offset, Clipped(|buf|, offset)))
    case Stat(id) => id < TABLE_SIZE + 2
    case Remount => true
  }

  /** What the methods of the store promise. */
  ghost predicate Steps(s: Store, op: Op, a: Answer, s': Store) {
    match op
    case Find(key) =>
      s' == s && (a.n == -1 <==> !Present(s.objs, key)) && (a.n != -1 ==> Holds(s.objs, a.n - 2, key))
    case Create(key) => Created(s.objs, key, s'.objs, a.n) && s' == s.(objs := s'.objs)
    case Destroy(key) =>
      && a.n == (if Present(s.objs, key) then 0 else -1) && (a.n == -1 ==> s' == s)
      && (a.n == 0 ==> exists x :: Holds(s.objs, x, key) && Destroyed(s, x, s'))
    case Rename(key, newName) =>
      && (a.n == -1 ==> s' == s) && (a.n != -1 ==> Moves(s, key, newName, s', a.n))
      && (a.n == -1 <==> |newName| > 32 || !Present(s.objs, key) || Refused(s.objs, newName))
    case Read(id, want, offset) =>
      s' == s &&
      if LiveId(s.objs, id) then
        Readable(s, id - 2) && ReadAnswered(Bytes(s, id - 2), want, offset, a)
      else a.n == -1
    case Write(id, buf, offset) =>
      if LiveId(s.objs, id) then
        a.n == Clipped(|buf|, offset) && 0 <= a.n <= |buf| && Written(s, id - 2, buf[..a.n], offset, s')
      else a.n == -1 && s' == s
    case Stat(id) =>
      s' == s && if LiveId(s.objs, id) then a.n == s.objs[id - 2].size && a.blocks == BlocksFor(a.n) else a.n == -1
    case Remount => s' == s
  }

  // ----- one step -----

  lemma NamesAgree(s: Store, key: Key)
    requires Inv(s)
    ensures NameTaken(Abs(s), key) <==> Present(s.objs, key)
    ensures forall x | Holds(s.objs, x, key) :: Named(Abs(s), x + 2, key)
  {
    if NameTaken(Abs(s), key) {
      var id :| Named(Abs(s), id, key);
      assert Holds(s.objs, id - 2, key);
    }
    forall x | Holds(s.objs, x, key)
      ensures Named(Abs(s), x + 2, key)
    {
      assert LiveId(s.objs, x + 2);
    }
  }

  lemma RenameStep(s: Store, key: Key, newName: Key, x: int, id: int)
    requires Inv(s) && Holds(s.objs, x, key) && 2 <= id < TABLE_SIZE + 2 && !Live(s.objs, id - 2)
    requires newName == key || !Present(s.objs, newName)
    ensures var s' := Renamed(s, x, newName, id - 2);
      && Inv(s') && id !in Abs(s) && (NoLeak(s) ==> NoLeak(s')) && Named(Abs(s), x + 2, key)
      && Abs(s') == (Abs(s) - {x + 2})[id := File(newName, Abs(s)[x + 2].bytes)]
  {
    NamesAgree(s, key);
    RenameRefines(s, x, newName, id - 2);
    assert LiveId(s.objs, x + 2) && !LiveId(s.objs, id);
  }

  lemma DestroyStep(s: Store, key: Key, x: int, s': Store)
    requires Inv(s) && Holds(s.objs, x, key) && Destroyed(s, x, s')
    ensures Inv(s') && Named(Abs(s), x + 2, key) && Abs(s') == Abs(s) - {x + 2} && (NoLeak(s) ==> NoLeak(s'))
  {
    NamesAgree(s, key);
    DestroyRefines(s, x, s');
  }

  lemma CreateStep(s: Store, key: Key, objs': seq<Object>, id: int)
    requires Inv(s) && Detected(s.objs, key) && Created(s.objs, key, objs', id)
    ensures var s' := s.(objs := objs');
      && Inv(s') && (NoLeak(s) ==> NoLeak(s'))
      && (if NameTaken(Abs(s), key) then id == -1 && s' == s
          else id >= 2 && id !in Abs(s) && Abs(s') == Abs(s)[id := File(key, [])])
  {
    NamesAgree(s, key);
    if Present(s.objs, key) {
      RefusedIff(s.objs, key, objs', id);
      CreatedWhere(s.objs, key, objs', id);
    } else {
      CreateRefines(s, key, objs', id);
      CreateAbsent(s.objs, key, objs', id);
    }
  }

  lemma NameStep(s: Store, op: Op, a: Answer, s': Store)
    requires Inv(s) && Demands(s, op) && Steps(s, op, a, s') && (op.Find? || op.Create? || op.Destroy?)
    ensures Inv(s') && Allows(Abs(s), op, a, Abs(s')) && (NoLeak(s) ==> NoLeak(s'))
  {
    match op
    case Find(key) => NamesAgree(s, key);
    case Create(key) => CreateStep(s, key, s'.objs, a.n);
    case Destroy(key) =>
      NamesAgree(s, key);
      if a.n == 0 {
        var x :| Holds(s.objs, x, key) && Destroyed(s, x, s');
        DestroyStep(s, key, x, s');
      }
  }

  lemma RefusedIsTaken(s: Store, key: Key)
    requires Inv(s) && Refused(s.objs, key)
    ensures Present(s.objs, key) && NameTaken(Abs(s), key)
  {
    var x :| FirstStop(s.objs, key, x) && Live(s.objs, x);
    assert Holds(s.objs, x, key);
    NamesAgree(s, key);
  }

  lemma MoveDone(s: Store, key: Key, newName: Key, id: int, s': Store)
    requires Inv(s) && Moves(s, key, newName, s', id) && (newName == key || !Present(s.objs, newName))
    ensures Inv(s') && (NoLeak(s) ==> NoLeak(s')) && id !in Abs(s)
    ensures exists from ::
      Named(Abs(s), from, key) && Abs(s') == (Abs(s) - {from})[id := File(newName, Abs(s)[from].bytes)]
  {
    var x :| Holds(s.objs, x, key) && s' == Renamed(s, x, newName, id - 2);
    RenameStep(s, key, newName, x, id);
  }

  lemma MoveStep(s: Store, key: Key, newName: Key, a: Answer, s': Store)
    requires Inv(s) && Demands(s, Rename(key, newName)) && Steps(s, Rename(key, newName), a, s')
    ensures Inv(s') && Allows(Abs(s), Rename(key, newName), a, Abs(s')) && (NoLeak(s) ==> NoLeak(s'))
  {
    if a.n != -1 {
      MoveDone(s, key, newName, a.n, s');
    } else if Refused(s.objs, newName) {
      RefusedIsTaken(s, newName);
    } else {
      NamesAgree(s, key);
    }
  }

  lemma IdsAgree(s: Store, id: int)
    requires Inv(s)
    ensures id in Abs(s) <==> LiveId(s.objs, id)
    ensures id in Abs(s) ==> Abs(s)[id].bytes == Bytes(s, id - 2) && |Abs(s)[id].bytes| == s.objs[id - 2].size
  {
  }

  lemma ReadStep(s: Store, id: int, want: nat, offset: nat, a: Answer)
    requires Inv(s) && Demands(s, Read(id, want, offset)) && Steps(s, Read(id, want, offset), a, s)
    ensures Allows(Abs(s), Read(id, want, offset), a, Abs(s))
  {
    IdsAgree(s, id);
  }

  lemma StatStep(s: Store, id: int, a: Answer)
    requires Inv(s) && Steps(s, Stat(id), a, s)
    ensures Allows(Abs(s), Stat(id), a, Abs(s))
  {
    IdsAgree(s, id);
  }

  lemma WriteStep(s: Store, id: int, buf: seq<Byte>, offset: nat, a: Answer, s': Store)
    requires Inv(s) && Demands(s, Write(id, buf, offset)) && Steps(s, Write(id, buf, offset), a, s')
    ensures Inv(s') && Allows(Abs(s), Write(id, buf, offset), a, Abs(s'))
  {
    IdsAgree(s, id);
    if LiveId(s.objs, id) {
      WriteRefines(s, id - 2, buf[..a.n], offset, s');
    }
  }

  /** Each operation of the store is the corresponding operation on the map. */
  lemma StepRefines(s: Store, op: Op, a: Answer, s': Store)
    requires Inv(s) && Demands(s, op) && Steps(s, op, a, s')
    ensures Inv(s') && Allows(Abs(s), op, a, Abs(s'))
  {
    match op
    case Find(key) => NameStep(s, op, a, s');
    case Create(key) => NameStep(s, op, a, s');
    case Destroy(key) => NameStep(s, op, a, s');
    case Rename(key, newName) => MoveStep(s, key, newName, a, s');
    case Read(id, want, offset) => ReadStep(s, id, want, offset, a);
    case Write(id, buf, offset) => WriteStep(s, id, buf, offset, a, s');
    case Stat(id) => StatStep(s, id, a);
    case Remount =>
  }

  // ----- every run -----

  /** states[i] leads to states[i + 1] by ops[i], which answers answers[i]. */
  ghost predicate StepAt(states: seq<Store>, ops: seq<Op>, answers: seq<Answer>, i: nat)
    requires i < |ops| && |states| == |ops| + 1 && |answers| == |ops|
  {
    Demands(states[i], ops[i]) && Steps(states[i], ops[i], answers[i], states[i + 1])
  }

  ghost predicate IsRun(states: seq<Store>, ops: seq<Op>, answers: seq<Answer>) {
    && |states| == |ops| + 1 && |answers| == |ops|
    && forall i | 0 <= i < |ops| :: StepAt(states, ops, answers, i)
  }

  lemma RestIsRun(states: seq<Store>, ops: seq<Op>, answers: seq<Answer>)
    requires IsRun(states, ops, answers) && ops != []
    ensures IsRun(states[1..], ops[1..], answers[1..])
    ensures Demands(states[0], ops[0]) && Steps(states[0], ops[0], answers[0], states[1])
  {
    assert StepAt(states, ops, answers, 0);
    forall i | 0 <= i < |ops[1..]|
      ensures StepAt(states[1..], ops[1..], answers[1..], i)
    {
      assert StepAt(states, ops, answers, i + 1);
    }
  }

  /** The map alone explains the answers: there are maps in between that allow each of them. */
  ghost predicate Explains(f: Files, ops: seq<Op>, answers: seq<Answer>, f': Files)
    requires |answers| == |ops|
    decreases |ops|
  {
    if ops == [] then f' == f
    else exists g :: Allows(f, ops[0], answers[0], g) && Explains(g, ops[1..], answers[1..], f')
  }

  /** The store refines the map over every run, whatever state it starts from. */
  lemma {:induction false} RunRefines(states: seq<Store>, ops: seq<Op>, answers: seq<Answer>)
    requires IsRun(states, ops, answers) && Inv(states[0])
    ensures Inv(states[|ops|]) && Explains(Abs(states[0]), ops, answers, Abs(states[|ops|]))
    decreases |ops|
  {
    if ops != [] {
      RestIsRun(states, ops, answers);
      StepRefines(states[0], ops[0], answers[0], states[1]);
      RunRefines(states[1..], ops[1..], answers[1..]);
      assert states[1..][|ops[1..]|] == states[|ops|];
    }
  }

  // ----- conservation of blocks -----

  /** A write that leaves its object with fewer blocks. */
  predicate Shortens(s: Store, op: Op) {
    op.Write? && LiveId(s.objs, op.id) &&
    BlocksFor(op.offset + Clipped(|op.buf|, op.offset)) < BlocksFor(s.objs[op.id - 2].size)
  }

  lemma WriteKeepsNoLeakIff(s: Store, id: int, buf: seq<Byte>, offset: nat, a: Answer, s': Store)
    requires Inv(s) && Steps(s, Write(id, buf, offset), a, s') && NoLeak(s)
    ensures NoLeak(s') <==> !Shortens(s, Write(id, buf, offset))
  {
    if LiveId(s.objs, id) {
      var data := buf[..a.n];
      assert Written(s, id - 2, data, offset, s') && Live(s.objs, id - 2);
      WriteLeaksIff(s, id - 2, data, offset, s');
      assert offset + |data| == offset + Clipped(|buf|, offset);
    }
  }

  /** A step keeps "used means reachable" exactly when it is not a write that shortens an object. */
  lemma StepKeepsNoLeak(s: Store, op: Op, a: Answer, s': Store)
    requires Inv(s) && Demands(s, op) && Steps(s, op, a, s') && NoLeak(s)
    ensures NoLeak(s') <==> !Shortens(s, op)
  {
    match op
    case Find(key) => NameStep(s, op, a, s');
    case Create(key) => NameStep(s, op, a, s');
    case Destroy(key) => NameStep(s, op, a, s');
    case Rename(key, newName) => MoveStep(s, key, newName, a, s');
    case Read(id, want, offset) =>
    case Write(id, buf, offset) => WriteKeepsNoLeakIff(s, id, buf, offset, a, s');
    case Stat(id) =>
    case Remount =>
  }

  /** As long as no write shortens an object, the used blocks are exactly the blocks of live objects. */
  lemma {:induction false} RunKeepsNoLeak(states: seq<Store>, ops: seq<Op>, answers: seq<Answer>)
    requires IsRun(states, ops, answers) && Inv(states[0]) && NoLeak(states[0])
    requires forall i | 0 <= i < |ops| :: !Shortens(states[i], ops[i])
    ensures NoLeak(states[|ops|])
    decreases |ops|
  {
    if ops != [] {
      RestIsRun(states, ops, answers);
      StepRefines(states[0], ops[0], answers[0], states[1]);
      StepKeepsNoLeak(states[0], ops[0], answers[0], states[1]);
      RunKeepsNoLeak(states[1..], ops[1..], answers[1..]);
    }
  }
}
