/** The objects: a socket tells the collection that observes it about each change of its addresses. */
module SocketObjects {
  import opened SocketIndex

  class Socket {
    var local: AddressPort
    var remote: AddressPort
    var observer: SocketCollection?

    constructor (local: AddressPort, remote: AddressPort)
      ensures observer == null && Key() == MakeKey(local, remote)
    {
      this.local, this.remote := local, remote;
      observer := null;
    }

    function Key(): string
      reads `local, `remote
    {
      MakeKey(local, remote)
    }

    /** The index follows the change exactly if no other socket in the collection has the new key. */
    method SetLocalAddressPort(local: AddressPort, ghost live: set<Socket>)
      requires observer != null ==> observer.Exact(live)
      modifies this, observer
      ensures this.local == local && remote == old(remote) && observer == old(observer)
      ensures observer != null ==>
                (observer.Exact(live + {this}) <==> forall t :: t in live && t != this ==> t.Key() != Key())
    {
      this.local := local;
      Notify(live);
    }

    method SetRemoteAddressPort(remote: AddressPort, ghost live: set<Socket>)
      requires observer != null ==> observer.Exact(live)
      modifies this, observer
      ensures this.remote == remote && local == old(local) && observer == old(observer)
      ensures observer != null ==>
                (observer.Exact(live + {this}) <==> forall t :: t in live && t != this ==> t.Key() != Key())
    {
      this.remote := remote;
      Notify(live);
    }

    method Notify(ghost live: set<Socket>)
      requires observer != null ==> observer.ExactBut(live, this)
      modifies this`observer, observer
      ensures observer == old(observer)
      ensures observer != null ==>
                (observer.Exact(live + {this}) <==> forall t :: t in live && t != this ==> t.Key() != Key())
    {
      if observer != null {
        var collection := observer;
        collection.Update(this, live);
      }
    }
  }

  /** What the index needs, said in addresses: among sockets whose local addresses have one length, no
      other socket has the key of `s` exactly if no other has both of its addresses and ports. */
  lemma DistinctAddressesSuffice(s: Socket, live: set<Socket>)
    requires forall t :: t in live + {s} ==>
               Proper(t.local) && Proper(t.remote) && |t.local.address| == |s.local.address|
    ensures (forall t :: t in live && t != s ==> t.Key() != s.Key())
            <==> (forall t :: t in live && t != s ==> t.local != s.local || t.remote != s.remote)
  {
    forall t | t in live ensures t.Key() == s.Key() <==> t.local == s.local && t.remote == s.remote {
      EqualLengthKeysAreDistinct(t.local, t.remote, s.local, s.remote);
    }
  }

  class SocketCollection {
    var collection: map<string, Socket>

    ghost predicate Exact(live: set<Socket>)
      reads this, live
    {
      && (forall s :: s in live ==> s.Key() in collection && collection[s.Key()] == s)
      && (forall k :: k in collection ==> collection[k] in live && collection[k].Key() == k)
    }

    /** Exact, but for one socket whose key may have changed since its entry was made. */
    ghost predicate ExactBut(live: set<Socket>, s: Socket)
      reads this, live
    {
      && (forall t :: t in live && t != s ==> t.Key() in collection && collection[t.Key()] == t)
      && (forall k :: k in collection ==> collection[k] in live && (collection[k] != s ==> collection[k].Key() == k))
      && (forall j, k :: j in collection && k in collection && collection[j] == s == collection[k] ==> j == k)
    }

    constructor ()
      ensures collection == map[] && Exact({})
    {
      collection := map[];
    }

    method GetByLocalAndRemote(local: AddressPort, remote: AddressPort, ghost live: set<Socket>) returns (s: Socket?)
      requires Exact(live)
      ensures s != null <==> exists t :: t in live && t.Key() == MakeKey(local, remote)
      ensures s != null ==> s in live && s.Key() == MakeKey(local, remote)
    {
      var key := MakeKey(local, remote);
      s := if key in collection then collection[key] else null;
    }

    method Push(s: Socket)
      modifies this, s`observer
      ensures s.observer == this && collection == old(collection)[s.Key() := s]
    {
      s.observer := this;
      collection := collection[s.Key() := s];
    }

    method Remove(s: Socket)
      modifies this
      ensures ErasedFrom(old(collection), collection, s.Key(), s)
    {
      var key := s.Key();
      if key in collection {
        collection := collection - {key};
        return;
      }
      var todo := collection.Keys;
      while todo != {}
        invariant todo <= collection.Keys && collection == old(collection)
        invariant forall k :: k in collection && k !in todo ==> collection[k] != s
      {
        var k :| k in todo;
        if collection[k] == s {
          collection := collection - {k};
          return;
        }
        todo := todo - {k};
      }
    }

    method Update(s: Socket, ghost live: set<Socket>)
      requires ExactBut(live, s) && s.observer == this
      modifies this, s`observer
      ensures s.observer == this
      ensures Exact(live + {s}) <==> forall t :: t in live && t != s ==> t.Key() != s.Key()
    {
      hide MakeKey;
      ghost var key := s.Key();
      ghost var before := collection;
      Remove(s);
      ghost var free := forall t :: t in live && t != s ==> t.Key() != key;
      assert free ==> forall k :: k in collection <==> k in before && before[k] != s;
      Push(s);
      assert s.Key() == key && collection[key] == s;
    }
  }
}
