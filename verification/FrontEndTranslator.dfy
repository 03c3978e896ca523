/** The objects of the front end: sockets drawn from a pool, a map from socket ids to them, and the
    calls that move them around. */
module FrontEndObjects {
  import opened FrontEndHandshake

  const POOL_INITIAL_SIZE: nat := 10

  class SocketData {
    var flag: nat
    var sem: nat
    var receivePayload: Response

    ghost predicate Matches(s: State)
      reads this
    {
      flag == s.flag && sem == s.sem && receivePayload == s.buffer
    }

    ghost predicate Fresh()
      reads this
    {
      flag == 1 && sem == 0
    }

    constructor ()
      ensures Fresh()
      ensures Matches(Init(receivePayload))
    {
      sem := 0;
      flag := 1;
    }

    /** A receiver that finds the flag posted takes three steps of the handshake. */
    method Receive(m: Response, ghost r: nat, ghost s: State)
      requires Matches(s) && Enabled(s, FlagWait(r, m))
      modifies this
      ensures Matches(Step(Step(Step(s, FlagWait(r, m)), Store(r)), SemPost(r)))
      ensures receivePayload == m && flag == old(flag) - 1 && sem == old(sem) + 1
    {
      flag := flag - 1;
      receivePayload := m;
      sem := sem + 1;
    }

    /** The end of every call, once the semaphore is posted. */
    method TakeResponse(ghost c: nat, ghost s: State) returns (m: Response)
      requires Matches(s) && Enabled(s, SemWait(c))
      modifies this
      ensures Matches(Step(Step(s, SemWait(c)), FlagPost(c))) && m == s.buffer
      ensures receivePayload == m == old(receivePayload) && sem == old(sem) - 1 && flag == old(flag) + 1
      ensures Step(Step(s, SemWait(c)), FlagPost(c)).consumed == s.consumed + [Taken(c, m)]
    {
      sem := sem - 1;
      m := receivePayload;
      flag := flag + 1;
    }
  }

  ghost predicate Distinct(q: seq<SocketData>) {
    forall i, j :: 0 <= i < j < |q| ==> q[i] != q[j]
  }

  /** A list of objects that are ready for use; it doubles when it runs empty. */
  class ObjectPool {
    var objects: seq<SocketData>
    var size: nat
    ghost var created: set<SocketData>

    ghost predicate Ready()
      reads this, objects
    {
      && Distinct(objects)
      && (forall d :: d in objects ==> d in created && d.Fresh())
    }

    ghost predicate Valid()
      reads this, objects
    {
      Ready() && size > 0
    }

    /** The objects that are in use. */
    ghost function Lent(): set<SocketData>
      reads this
    {
      set d | d in created && d !in objects
    }

    constructor ()
      ensures Valid() && Lent() == {} && fresh(objects) && |objects| == size == 10
    {
      objects, size, created := [], 0, {};
      new;
      Grow(POOL_INITIAL_SIZE);
    }

    method Grow(num: nat)
      requires Ready()
      modifies this
      ensures Ready() && Lent() == old(Lent())
      ensures size == old(size) + num && |objects| == |old(objects)| + num && old(objects) <= objects
      ensures forall i :: |old(objects)| <= i < |objects| ==> fresh(objects[i])
    {
      for i := 0 to num
        invariant Ready() && Lent() == old(Lent())
        invariant size == old(size) + i && |objects| == |old(objects)| + i && old(objects) <= objects
        invariant forall d :: d in created ==> allocated(d)
        invariant forall k :: |old(objects)| <= k < |objects| ==> fresh(objects[k])
      {
        var d := new SocketData();
        objects := objects + [d];
        created := created + {d};
        size := size + 1;
      }
    }

    method Get() returns (d: SocketData)
      requires Valid()
      modifies this
      ensures Valid() && d !in old(Lent()) && Lent() == old(Lent()) + {d}
      ensures d.Fresh() && d !in objects
      ensures old(objects) != [] ==> old(objects) == [d] + objects && size == old(size)
      ensures old(objects) == [] ==> size == 2 * old(size) && |objects| == old(size) - 1
    {
      if |objects| <= 0 {
        Grow(size * 2 - size);
      }
      d := objects[0];
      objects := objects[1..];
    }

    method Release(d: SocketData)
      requires Valid() && d in Lent() && d.Fresh()
      modifies this
      ensures Valid() && objects == old(objects) + [d] && Lent() == old(Lent()) - {d}
    {
      objects := objects + [d];
    }
  }

  datatype Kind = SocketKind | CloseKind | OtherKind
  datatype Message = Message(kind: Kind, fd: int, response: Response)

  // What becomes of a message from the back end; an unknown socket fails an assertion
  datatype Outcome = SocketSignalled | AlreadyClosed | Failed | Delivered

  ghost predicate Injective(m: map<int, SocketData>) {
    forall a, b :: a in m && b in m && a != b ==> m[a] != m[b]
  }

  /** The objects of the live sockets. */
  ghost function Live(m: map<int, SocketData>): set<SocketData> {
    set id | id in m :: m[id]
  }

  lemma PutAdds(m: map<int, SocketData>, id: int, d: SocketData)
    requires Injective(m) && d !in Live(m)
    ensures Injective(m[id := d])
    ensures Live(m[id := d]) == Live(m) + {d} <==> id !in m
  {
    var after := m[id := d];
    assert after[id] == d;
    if id in m {
      assert m[id] in Live(m) && m[id] !in Live(after);
    } else {
      forall k | k in m ensures m[k] in Live(after) {
        assert after[k] == m[k];
      }
    }
  }

  lemma EraseRemoves(m: map<int, SocketData>, id: int)
    requires Injective(m) && id in m
    ensures Injective(m - {id}) && Live(m - {id}) == Live(m) - {m[id]}
  {
    forall k | k in m && k != id ensures m[k] in Live(m - {id}) {
      assert (m - {id})[k] == m[k];
    }
  }

  lemma TakingFreesToken(s: State, c: nat)
    requires Exclusive(s) && Enabled(s, SemWait(c))
    ensures var after := Step(Step(s, SemWait(c)), FlagPost(c));
            after.flag == 1 && after.sem == 0
  {
    OneHolder(s);
  }

  class FrontEnd {
    const pool: ObjectPool
    var sockets: map<int, SocketData>
    var socketSignal: nat

    /** The objects in use are those of the live sockets, one each; all others wait in the pool in
        their constructor state. */
    ghost predicate Valid()
      reads this, pool, pool.objects
    {
      pool.Valid() && Injective(sockets) && pool.Lent() == Live(sockets)
    }

    constructor ()
      ensures Valid() && fresh(pool) && sockets == map[]
    {
      pool := new ObjectPool();
      sockets, socketSignal := map[], 0;
    }

    method Receive(message: Message, ghost r: nat, ghost s: State) returns (outcome: Outcome)
      requires message.kind == SocketKind ==> 0 in sockets
      requires message.kind != SocketKind && message.fd in sockets ==>
                 sockets[message.fd].Matches(s) && Enabled(s, FlagWait(r, message.response))
      modifies this`socketSignal
      modifies if message.kind == SocketKind then {sockets[0]}
               else if message.fd in sockets then {sockets[message.fd]} else {}
      ensures outcome == (if message.kind == SocketKind then SocketSignalled
                          else if message.fd in sockets then Delivered
                          else if message.kind == CloseKind then AlreadyClosed else Failed)
      ensures socketSignal == if message.kind == SocketKind then 1 else old(socketSignal)
      ensures message.kind == SocketKind ==>
                var d := sockets[0];
                d.receivePayload == message.response && d.flag == old(d.flag) && d.sem == old(d.sem)
      ensures outcome == Delivered ==>
                sockets[message.fd].Matches(Step(Step(Step(s, FlagWait(r, message.response)), Store(r)), SemPost(r)))
    {
      if message.kind == SocketKind {
        sockets[0].receivePayload := message.response;
        socketSignal := 1;
        return SocketSignalled;
      }
      if message.fd !in sockets {
        return if message.kind == CloseKind then AlreadyClosed else Failed;
      }
      sockets[message.fd].Receive(message.response, r, s);
      outcome := Delivered;
    }

    /** The first half of opening a socket: until the back end has named it, it is socket 0. Every
        object stays accounted for exactly if no socket has been named 0. */
    method StartSocket()
      requires Valid()
      modifies this`sockets, pool
      ensures 0 in sockets && sockets == old(sockets)[0 := sockets[0]] && sockets[0].Fresh()
      ensures Valid() <==> 0 !in old(sockets)
    {
      var d := pool.Get();
      PutAdds(sockets, 0, d);
      sockets := sockets[0 := d];
    }

    /** The second half. Every object stays accounted for exactly if the name is not in use. */
    method FinishSocket() returns (id: int)
      requires Valid() && 0 in sockets && socketSignal > 0
      modifies this
      ensures id == old(sockets[0].receivePayload).value && sockets == (old(sockets) - {0})[id := old(sockets)[0]]
      ensures Valid() <==> id == 0 || id !in old(sockets)
    {
      socketSignal := socketSignal - 1;
      var data := sockets[0];
      id := data.receivePayload.value;
      EraseRemoves(sockets, 0);
      sockets := sockets - {0};
      PutAdds(sockets, id, data);
      sockets := sockets[id := data];
    }

    /** Accepting takes an object from the pool whatever the response says; it replaces, and loses,
        the object of a name that is in use, such as the -1 of an earlier failure. */
    method FinishAccept(fd: int, ghost c: nat, ghost s: State) returns (id: int)
      requires Valid() && fd in sockets && sockets[fd].Matches(s) && Enabled(s, SemWait(c))
      modifies this`sockets, pool, sockets[fd]
      ensures id == s.buffer.value && id in sockets && sockets == old(sockets)[id := sockets[id]]
      ensures sockets[id] !in old(pool.Lent()) && pool.Lent() == old(pool.Lent()) + {sockets[id]}
      ensures old(sockets[fd]).Matches(Step(Step(s, SemWait(c)), FlagPost(c)))
      ensures Valid() <==> id !in old(sockets)
    {
      var data := sockets[fd];
      var m := data.TakeResponse(c, s);
      id := m.value;
      var d := pool.Get();
      PutAdds(sockets, id, d);
      sockets := sockets[id := d];
    }

    /** Closing returns the object to the pool as the constructor left it. */
    method FinishClose(fd: int, ghost c: nat, ghost s: State) returns (value: int)
      requires Valid() && fd in sockets && sockets[fd].Matches(s) && Enabled(s, SemWait(c)) && Exclusive(s)
      modifies this`sockets, pool, sockets[fd]
      ensures Valid() && value == s.buffer.value
      ensures sockets == old(sockets) - {fd} && pool.objects == old(pool.objects) + [old(sockets)[fd]]
      ensures old(sockets)[fd].Matches(Step(Step(s, SemWait(c)), FlagPost(c)))
    {
      hide Exclusive, Step;
      TakingFreesToken(s, c);
      var data := sockets[fd];
      var m := data.TakeResponse(c, s);
      value := m.value;
      EraseRemoves(sockets, fd);
      pool.Release(data);
      sockets := sockets - {fd};
    }
  }

  /** Two accepts on one socket that fail: the object the first one stored under -1 is then neither in
      the pool nor in use by any socket. */
  method FailToAcceptTwice(frontEnd: FrontEnd, fd: int, first: Response, second: Response,
                           ghost c: nat, ghost d: nat, ghost s: State)
    returns (lost: SocketData)
    requires frontEnd.Valid() && fd in frontEnd.sockets && fd != -1 && -1 !in frontEnd.sockets
    requires first.value == second.value == -1
    requires frontEnd.sockets[fd].Matches(s) && s.buffer == first && s.entering == map[] && s.leaving == {}
    requires s.flag == 0 && s.sem == 1 && c in s.waiting && c !in s.reading && d in s.waiting && d != c
    modifies frontEnd, frontEnd.pool, frontEnd.sockets[fd]
    ensures lost in frontEnd.pool.Lent() && lost !in Live(frontEnd.sockets) && !frontEnd.Valid()
  {
    var data := frontEnd.sockets[fd];
    var id := frontEnd.FinishAccept(fd, c, s);
    assert frontEnd.Valid();
    lost := frontEnd.sockets[-1];
    ghost var s1 := Step(Step(s, SemWait(c)), FlagPost(c));
    assert data in Live(frontEnd.sockets) && data !in frontEnd.pool.objects;
    var message := Message(OtherKind, fd, second);
    var outcome := frontEnd.Receive(message, 0, s1);
    assert frontEnd.Valid();
    ghost var s2 := Step(Step(Step(s1, FlagWait(0, second)), Store(0)), SemPost(0));
    id := frontEnd.FinishAccept(fd, d, s2);
  }
}
