/** The open-addressed object table of objstore.c: wrap-around probing, no tombstones. */
module KeyTable {
  import opened Blocks

  const TABLE_SIZE: nat := 1000000

  /** A key is the bytes of a C string without its terminator. */
  type Key = seq<Byte>

  datatype Object = Object(id: int, size: int, key: Key, ptrs: seq<int>)

  // ----- the hash function -----

  /** One round of djb2 in 32-bit arithmetic; plain char is signed. */
  function HashStep(h: nat, c: Byte): (r: nat)
    ensures r < 0x1_0000_0000
  {
    (h * 33 + (if c < 128 then c else c - 256 + 0x1_0000_0000)) % 0x1_0000_0000
  }

  function HashFrom(h: nat, key: Key): (r: nat)
    decreases |key|
  {
    if key == [] then h else HashFrom(HashStep(h, key[0]), key[1..])
  }

  function Hash(key: Key): (r: nat)
    ensures r < TABLE_SIZE
  {
    HashFrom(5381, key) % TABLE_SIZE
  }

  method ComputeHash(key: Key) returns (r: nat)
    ensures r == Hash(key)
  {
    var h: nat := 5381;
    var i := 0;
    while i < |key|
      invariant 0 <= i <= |key| && HashFrom(h, key[i..]) == HashFrom(5381, key)
    {
      h := HashStep(h, key[i]);
      assert key[i..][1..] == key[i + 1..];
      i := i + 1;
    }
    r := h % TABLE_SIZE;
  }

  function Pow33(n: nat): nat {
    if n == 0 then 1 else 33 * Pow33(n - 1)
  }

  function Signed(c: Byte): int {
    var b: int := c;
    if b < 128 then b else b - 256
  }

  /** The characters of a key, which are signed, as the digits of a number in base 33. */
  function Digits(key: Key): int {
    if key == [] then 0
    else Signed(key[0]) * Pow33(|key| - 1) + Digits(key[1..])
  }

  lemma Reduce(x: int, k: int)
    ensures (x + k * 0x1_0000_0000) % 0x1_0000_0000 == x % 0x1_0000_0000
  {
  }

  lemma ReduceFirst(a: int, p: int, q: int)
    ensures (a % 0x1_0000_0000 * p + q) % 0x1_0000_0000 == (a * p + q) % 0x1_0000_0000
  {
    var k := a / 0x1_0000_0000;
    assert a * p == a % 0x1_0000_0000 * p + k * p * 0x1_0000_0000;
    Reduce(a % 0x1_0000_0000 * p + q, k * p);
  }

  lemma HashStepIs(h: nat, c: Byte)
    ensures HashStep(h, c) == (h * 33 + Signed(c)) % 0x1_0000_0000
  {
    Reduce(h * 33 + Signed(c), if c < 128 then 0 else 1);
  }

  lemma OneMoreDigit(h: int, c: int, p: int, q: int)
    ensures ((h * 33 + c) % 0x1_0000_0000 * p + q) % 0x1_0000_0000 == (h * (33 * p) + (c * p + q)) % 0x1_0000_0000
  {
    ReduceFirst(h * 33 + c, p, q);
    assert (h * 33 + c) * p == h * (33 * p) + c * p;
  }

  lemma {:induction false} HashFromIs(h: nat, key: Key)
    requires h < 0x1_0000_0000
    ensures HashFrom(h, key) == (h * Pow33(|key|) + Digits(key)) % 0x1_0000_0000
    decreases |key|
  {
    if key != [] {
      HashFromIs(HashStep(h, key[0]), key[1..]);
      HashStepIs(h, key[0]);
      OneMoreDigit(h, Signed(key[0]), Pow33(|key| - 1), Digits(key[1..]));
    }
  }

  /** The hash of a key: one number in base 33, reduced once to 32 bits and once to the table, although the loop reduces
      after every character. */
  lemma HashIs(key: Key)
    ensures Hash(key) == (5381 * Pow33(|key|) + Digits(key)) % 0x1_0000_0000 % 1000000
  {
    HashFromIs(5381, key);
  }

  lemma HashOfTwo(a: Byte, b: Byte)
    ensures Hash([a, b]) == (5381 * 1089 + Signed(a) * 33 + Signed(b)) % 0x1_0000_0000 % 1000000
  {
    HashIs([a, b]);
    assert Pow33(2) == 33 * Pow33(1) && Pow33(1) == 33 * Pow33(0);
    assert [a, b][1..] == [b] && [b][1..] == [];
    assert Digits([b]) == Signed(b) * Pow33(0) && Digits([a, b]) == Signed(a) * Pow33(1) + Digits([b]);
  }

  // ----- probing -----

  predicate IsTable(objs: seq<Object>) {
    && |objs| == TABLE_SIZE
    && forall x | 0 <= x < TABLE_SIZE :: |objs[x].ptrs| == 4 && (objs[x].id == 0 || objs[x].id == x + 2)
  }

  predicate Live(objs: seq<Object>, x: int)
  {
    0 <= x < |objs| && objs[x].id != 0
  }

  predicate Holds(objs: seq<Object>, x: int, key: Key) {
    Live(objs, x) && objs[x].key == key
  }

  ghost predicate Present(objs: seq<Object>, key: Key) {
    exists x :: Holds(objs, x, key)
  }

  ghost predicate DistinctKeys(objs: seq<Object>) {
    forall x, y | Live(objs, x) && Live(objs, y) && objs[x].key == objs[y].key :: x == y
  }

  /** How many steps after slot h the probe sequence visits slot x. */
  function Distance(h: int, x: int): int {
    if x >= h then x - h else x - h + TABLE_SIZE
  }

  predicate Before(h: int, y: int, x: int) {
    0 <= y < TABLE_SIZE && Distance(h, y) < Distance(h, x)
  }

  /** Where find_object_id stops. */
  ghost predicate FirstHolding(objs: seq<Object>, key: Key, x: int) {
    Holds(objs, x, key) && forall y | Before(Hash(key), y, x) :: !Holds(objs, y, key)
  }

  /** Where create_object stops: the first slot that is a hole or already has the key. */
  ghost predicate FirstStop(objs: seq<Object>, key: Key, x: int) {
    && 0 <= x < |objs| && (!Live(objs, x) || objs[x].key == key)
    && forall y | Before(Hash(key), y, x) :: Live(objs, y) && objs[y].key != key
  }

  ghost predicate HasHole(objs: seq<Object>) {
    exists x :: 0 <= x < |objs| && !Live(objs, x)
  }

  /** find_object_id: one trip around the table; -1 iff no live slot holds the key. */
  method FindObjectId(obj: array<Object>, key: Key) returns (id: int)
    requires IsTable(obj[..])
    ensures id == -1 <==> !Present(obj[..], key)
    ensures id != -1 ==> id >= 2 && FirstHolding(obj[..], key, id - 2)
  {
    var h := ComputeHash(key);
    var index := h;
    if obj[index].id != 0 && obj[index].key == key {
      assert Holds(obj[..], index, key);
      return obj[index].id;
    }
    index := (index + 1) % TABLE_SIZE;
    while index != h
      invariant 0 <= index < TABLE_SIZE
      invariant !Holds(obj[..], h, key)
      invariant forall y | 0 <= y < TABLE_SIZE && (index == h || Before(h, y, index)) :: !Holds(obj[..], y, key)
      decreases if index == h then 0 else TABLE_SIZE - Distance(h, index)
    {
      if obj[index].id != 0 && obj[index].key == key {
        assert Holds(obj[..], index, key);
        return obj[index].id;
      }
      index := (index + 1) % TABLE_SIZE;
    }
    return -1;
  }

  /** The probing loop of create_object. It terminates because some slot is a hole or has the key. */
  method FindStop(obj: array<Object>, key: Key) returns (index: nat)
    requires IsTable(obj[..]) && (HasHole(obj[..]) || Present(obj[..], key))
    ensures FirstStop(obj[..], key, index)
  {
    var h := ComputeHash(key);
    index := h;
    ghost var goal :| 0 <= goal < TABLE_SIZE && (!Live(obj[..], goal) || obj[goal].key == key);
    while obj[index].id != 0 && obj[index].key != key
      invariant 0 <= index < TABLE_SIZE
      invariant forall y | Before(h, y, index) :: Live(obj[..], y) && obj[y].key != key
      invariant Distance(h, index) <= Distance(h, goal)
      decreases Distance(h, goal) - Distance(h, index)
    {
      index := (index + 1) % TABLE_SIZE;
    }
  }

  // ----- what creating a key does to lookups -----

  function FreshObject(x: int, key: Key): Object {
    Object(x + 2, 0, key, [-1, -1, -1, -1])
  }

  /** create_object on the table: the new table, and the id or -1. */
  ghost predicate Created(objs: seq<Object>, key: Key, objs': seq<Object>, id: int) {
    exists x :: FirstStop(objs, key, x) &&
      if Live(objs, x) then id == -1 && objs' == objs
      else id == x + 2 && objs' == objs[x := FreshObject(x, key)]
  }

  lemma CreatedWhere(objs: seq<Object>, key: Key, objs': seq<Object>, id: int)
    requires IsTable(objs) && Created(objs, key, objs', id)
    ensures id == -1 ==> objs' == objs && Present(objs, key)
    ensures id != -1 ==>
      2 <= id < TABLE_SIZE + 2 && !Live(objs, id - 2) && objs' == objs[id - 2 := FreshObject(id - 2, key)]
  {
    var x :| FirstStop(objs, key, x) && (if Live(objs, x) then id == -1 && objs' == objs
                                         else id == x + 2 && objs' == objs[x := FreshObject(x, key)]);
    assert Live(objs, x) ==> Holds(objs, x, key);
  }

  /** create_object reports the key as taken. */
  ghost predicate Refused(objs: seq<Object>, key: Key) {
    exists x :: FirstStop(objs, key, x) && Live(objs, x)
  }

  lemma FirstStopUnique(objs: seq<Object>, key: Key, x: int, y: int)
    requires IsTable(objs) && FirstStop(objs, key, x) && FirstStop(objs, key, y)
    ensures x == y
  {
    if x != y {
      SomeOrder(Hash(key), x, y);
    }
  }

  lemma RefusedIff(objs: seq<Object>, key: Key, objs': seq<Object>, id: int)
    requires IsTable(objs) && Created(objs, key, objs', id)
    ensures id == -1 <==> Refused(objs, key)
  {
    var x :| FirstStop(objs, key, x) && (if Live(objs, x) then id == -1 && objs' == objs
                                         else id == x + 2 && objs' == objs[x := FreshObject(x, key)]);
    forall y | FirstStop(objs, key, y)
      ensures x == y
    {
      FirstStopUnique(objs, key, x, y);
    }
  }

  lemma CreatedAt(objs: seq<Object>, key: Key, objs': seq<Object>, id: int, x: int)
    requires IsTable(objs) && FirstStop(objs, key, x) && !Live(objs, x) && Created(objs, key, objs', id)
    ensures id == x + 2 && objs' == objs[x := FreshObject(x, key)]
  {
    forall y | FirstStop(objs, key, y)
      ensures y == x
    {
      FirstStopUnique(objs, key, x, y);
    }
  }

  lemma StopsBehind(objs: seq<Object>, key: Key)
    requires IsTable(objs) && Live(objs, Hash(key)) && objs[Hash(key)].key != key
    requires Hash(key) + 1 < TABLE_SIZE && !Live(objs, Hash(key) + 1)
    ensures FirstStop(objs, key, Hash(key) + 1)
  {
  }

  lemma AbsentIsNotRefused(objs: seq<Object>, key: Key)
    requires !Present(objs, key)
    ensures !Refused(objs, key)
  {
    assert forall x | Live(objs, x) && objs[x].key == key :: Holds(objs, x, key);
  }

  /** Where the hash of a key leads to a hole, the key is not found taken, whether or not an object has it. */
  lemma NotRefusedAtHole(objs: seq<Object>, key: Key)
    requires IsTable(objs) && !Live(objs, Hash(key))
    ensures FirstStop(objs, key, Hash(key)) && !Refused(objs, key)
  {
    assert FirstStop(objs, key, Hash(key));
    forall y | FirstStop(objs, key, y)
      ensures y == Hash(key)
    {
      FirstStopUnique(objs, key, Hash(key), y);
    }
  }

  lemma SomeOrder(h: int, x: int, y: int)
    requires 0 <= h < TABLE_SIZE && 0 <= x < TABLE_SIZE && 0 <= y < TABLE_SIZE && x != y
    ensures Before(h, x, y) != Before(h, y, x)
  {
  }

  /** Creating an absent key succeeds and keeps the table well formed. */
  lemma CreateAbsent(objs: seq<Object>, key: Key, objs': seq<Object>, id: int)
    requires IsTable(objs) && DistinctKeys(objs) && !Present(objs, key) && Created(objs, key, objs', id)
    ensures 2 <= id < TABLE_SIZE + 2 && !Live(objs, id - 2) && objs' == objs[id - 2 := FreshObject(id - 2, key)]
    ensures IsTable(objs') && DistinctKeys(objs')
  {
    assert forall x | Live(objs, x) :: Holds(objs, x, objs[x].key);
  }

  /** Creating an absent key changes no other lookup, and its own lookup finds the new object. */
  lemma CreateLookups(objs: seq<Object>, key: Key, objs': seq<Object>, id: int, k: Key, x: int)
    requires IsTable(objs) && DistinctKeys(objs) && !Present(objs, key) && Created(objs, key, objs', id)
    ensures FirstHolding(objs', k, x) <==> if k == key then x == id - 2 else FirstHolding(objs, k, x)
  {
    CreateAbsent(objs, key, objs', id);
    assert forall y :: Holds(objs', y, k) <==> if y == id - 2 then k == key else Holds(objs, y, k);
    if k == key {
      assert forall y | y != id - 2 :: !Holds(objs', y, k);
    }
  }

  /** The documented duplicate check works exactly when no hole precedes the existing key. */
  lemma DuplicateDetectedIff(objs: seq<Object>, key: Key, x: int, objs': seq<Object>, id: int)
    requires IsTable(objs) && FirstHolding(objs, key, x) && Created(objs, key, objs', id)
    ensures id == -1 <==> forall y | Before(Hash(key), y, x) :: Live(objs, y)
    ensures id != -1 ==> id - 2 != x && Holds(objs', id - 2, key) && Holds(objs', x, key)
  {
    var z :| FirstStop(objs, key, z) && (if Live(objs, z) then id == -1 && objs' == objs
                                         else id == z + 2 && objs' == objs[z := FreshObject(z, key)]);
    assert !Before(Hash(key), x, z);
    if z != x {
      SomeOrder(Hash(key), x, z);
      assert !Holds(objs, z, key);
    }
  }

  /** No live key has a hole on its probe path. */
  ghost predicate Compact(objs: seq<Object>) {
    forall x, y | Live(objs, x) && Before(Hash(objs[x].key), y, x) :: Live(objs, y)
  }

  /** As long as nothing is removed, every duplicate is detected. */
  lemma CreateKeepsCompact(objs: seq<Object>, key: Key, objs': seq<Object>, id: int)
    requires IsTable(objs) && DistinctKeys(objs) && Compact(objs) && Created(objs, key, objs', id)
    ensures IsTable(objs') && DistinctKeys(objs') && Compact(objs')
    ensures id == -1 <==> Present(objs, key)
  {
    if Present(objs, key) {
      var x :| Holds(objs, x, key);
      assert forall y | Holds(objs, y, key) :: y == x;
      DuplicateDetectedIff(objs, key, x, objs', id);
    } else {
      CreateAbsent(objs, key, objs', id);
    }
  }

  /** The table after the object in slot x has been destroyed. */
  function Removed(objs: seq<Object>, x: int): seq<Object>
    requires 0 <= x < |objs|
  {
    objs[x := objs[x].(id := 0)]
  }

  /** Emptying slot x keeps the table compact exactly when no other live key was probed past x. */
  lemma RemoveKeepsCompactIff(objs: seq<Object>, x: int)
    requires IsTable(objs) && Compact(objs) && Live(objs, x)
    ensures Compact(Removed(objs, x)) <==>
      forall y | Live(objs, y) && y != x :: !Before(Hash(objs[y].key), x, y)
  {
    var objs' := Removed(objs, x);
    assert forall y :: Live(objs', y) <==> Live(objs, y) && y != x;
    if Compact(objs') {
      forall y | Live(objs, y) && y != x ensures !Before(Hash(objs[y].key), x, y) {
        assert Live(objs', y) && objs'[y].key == objs[y].key;
        assert !Live(objs', x);
      }
    } else {
      var y, z :| Live(objs', y) && Before(Hash(objs'[y].key), z, y) && !Live(objs', z);
      assert Live(objs, z);
    }
  }

  function EmptyTable(): (r: seq<Object>)
    ensures IsTable(r) && forall x :: !Live(r, x)
  {
    seq(TABLE_SIZE, x => Object(0, 0, [], [-1, -1, -1, -1]))
  }

  lemma CreateInHole(objs: seq<Object>, key: Key, x: int)
    requires IsTable(objs) && FirstStop(objs, key, x) && !Live(objs, x)
    ensures Created(objs, key, objs[x := FreshObject(x, key)], x + 2)
    ensures IsTable(objs[x := FreshObject(x, key)])
  {
  }

  /** Any two colliding keys defeat the duplicate check: create one, create the other, destroy the
      first, and the second can be created again. */
  lemma DuplicateAfterDestroy(first: Key, second: Key)
    requires first != second && Hash(first) == Hash(second)
    ensures exists t1: seq<Object>, t2: seq<Object>, t3: seq<Object>, id ::
      && |t2| == TABLE_SIZE && Created(EmptyTable(), first, t1, Hash(first) + 2) && Created(t1, second, t2, id) &&
        id != -1
      && Created(Removed(t2, Hash(first)), second, t3, Hash(first) + 2)
      && !DistinctKeys(t3)
  {
    var h := Hash(first);
    var next := (h + 1) % TABLE_SIZE;
    assert forall y | Before(h, y, next) :: y == h;
    CreateInHole(EmptyTable(), first, h);
    var t1 := EmptyTable()[h := FreshObject(h, first)];
    CreateInHole(t1, second, next);
    var t2 := t1[next := FreshObject(next, second)];
    var t2' := Removed(t2, h);
    CreateInHole(t2', second, h);
    var t3 := t2'[h := FreshObject(h, second)];
    assert Live(t3, h) && Live(t3, next) && t3[h].key == t3[next].key;
  }

  /** Such pairs exist. */
  lemma CollidingKeys()
    ensures Hash([97, 66]) == Hash([98, 33]) == 863176  // "aB" and "b!"
  {
    HashOfTwo(97, 66);
    HashOfTwo(98, 33);
  }
}
