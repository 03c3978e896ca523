/** The index of sockets by their address key, and how it follows sockets whose addresses change. */
module SocketIndex {

  type port = x: int | 0 <= x < 0x1_0000

  datatype AddressPort = AddressPort(address: string, number: port)

  function Decimal(n: nat): string {
    var digit := ['0' + (n % 10) as char];
    if n < 10 then digit else Decimal(n / 10) + digit
  }

  function Text(a: AddressPort): string {
    Decimal(a.number) + " " + a.address
  }

  /** The two texts are joined without a separator. */
  function MakeKey(local: AddressPort, remote: AddressPort): string {
    Text(local) + Text(remote)
  }

  /** Different pairs of addresses can have the same key. */
  lemma KeysCollide()
    ensures MakeKey(AddressPort("1.2.3.4", 80), AddressPort("5.6.7.8", 190))
            == MakeKey(AddressPort("1.2.3.41", 80), AddressPort("5.6.7.8", 90))
  {
    assert Decimal(190) == Decimal(19) + "0" == Decimal(1) + "9" + "0" == "190";
    assert Decimal(90) == Decimal(9) + "0" == "90";
    assert "1.2.3.4" + "190" == "1.2.3.41" + "90";
    var front, back := Decimal(80) + " ", " " + "5.6.7.8";
    assert MakeKey(AddressPort("1.2.3.4", 80), AddressPort("5.6.7.8", 190)) == front + ("1.2.3.4" + "190") + back;
    assert MakeKey(AddressPort("1.2.3.41", 80), AddressPort("5.6.7.8", 90)) == front + ("1.2.3.41" + "90") + back;
  }

  // ---------- which addresses share a key ----------

  /** The text of an address; dotted quads are proper. */
  ghost predicate Proper(a: AddressPort) {
    ' ' !in a.address
  }

  lemma {:induction false} DecimalIsDigits(n: nat)
    ensures Decimal(n) != [] && forall c :: c in Decimal(n) ==> '0' <= c <= '9'
  {
    if n >= 10 {
      DecimalIsDigits(n / 10);
    }
  }

  lemma {:induction false} DecimalIsInjective(n: nat, m: nat)
    ensures Decimal(n) == Decimal(m) <==> n == m
  {
    DecimalIsDigits(n / 10);
    DecimalIsDigits(m / 10);
    if Decimal(n) == Decimal(m) {
      assert Decimal(n)[|Decimal(n)| - 1] == '0' + (n % 10) as char;
      assert Decimal(m)[|Decimal(m)| - 1] == '0' + (m % 10) as char;
      if n >= 10 && m >= 10 {
        assert Decimal(n)[..|Decimal(n)| - 1] == Decimal(n / 10);
        assert Decimal(m)[..|Decimal(m)| - 1] == Decimal(m / 10);
        DecimalIsInjective(n / 10, m / 10);
      }
    }
  }

  /** A text is cut at its first space in one way only. */
  lemma FirstSpace(a: string, b: string, c: string, d: string)
    requires ' ' !in a && ' ' !in c
    ensures a + " " + b == c + " " + d <==> a == c && b == d
  {
    var left, right := a + " " + b, c + " " + d;
    if left == right {
      assert left[|a|] == ' ' && right[|c|] == ' ';
      assert forall i :: 0 <= i < |a| ==> left[i] == a[i];
      assert forall i :: 0 <= i < |c| ==> right[i] == c[i];
      assert |a| == |c|;
      assert left[..|a|] == a && right[..|c|] == c && left[|a| + 1..] == b && right[|c| + 1..] == d;
    }
  }

  /** Exactly which pairs of addresses share a key: the local ports and the remote addresses are equal,
      and so is what is written between them, the local address followed by the remote port. */
  lemma KeysCollideExactly(local: AddressPort, remote: AddressPort, local': AddressPort, remote': AddressPort)
    requires Proper(local) && Proper(remote) && Proper(local') && Proper(remote')
    ensures MakeKey(local, remote) == MakeKey(local', remote') <==>
              && local.number == local'.number && remote.address == remote'.address
              && local.address + Decimal(remote.number) == local'.address + Decimal(remote'.number)
  {
    var middle, middle' := local.address + Decimal(remote.number), local'.address + Decimal(remote'.number);
    KeyParts(local, remote);
    KeyParts(local', remote');
    FirstSpace(Decimal(local.number), middle + " " + remote.address,
               Decimal(local'.number), middle' + " " + remote'.address);
    FirstSpace(middle, remote.address, middle', remote'.address);
    DecimalIsInjective(local.number, local'.number);
  }

  lemma KeyParts(local: AddressPort, remote: AddressPort)
    requires Proper(local)
    ensures var middle := local.address + Decimal(remote.number);
            && MakeKey(local, remote) == Decimal(local.number) + " " + (middle + " " + remote.address)
            && ' ' !in Decimal(local.number) && ' ' !in middle
  {
    DecimalIsDigits(local.number);
    DecimalIsDigits(remote.number);
    hide Decimal;
  }

  /** Sockets bound to local addresses of one length, such as the one address of a host, have equal
      keys only if their addresses and ports are equal. */
  lemma EqualLengthKeysAreDistinct(local: AddressPort, remote: AddressPort, local': AddressPort, remote': AddressPort)
    requires Proper(local) && Proper(remote) && Proper(local') && Proper(remote')
    requires |local.address| == |local'.address|
    ensures MakeKey(local, remote) == MakeKey(local', remote') <==> local == local' && remote == remote'
  {
    KeysCollideExactly(local, remote, local', remote');
    var middle, middle' := local.address + Decimal(remote.number), local'.address + Decimal(remote'.number);
    assert middle[..|local.address|] == local.address && middle'[..|local'.address|] == local'.address;
    assert middle[|local.address|..] == Decimal(remote.number);
    assert middle'[|local'.address|..] == Decimal(remote'.number);
    DecimalIsInjective(remote.number, remote'.number);
  }

  // ---------- the index ----------

  /** Erasing a socket: by its key if anything has that key, else one entry that points to it. */
  ghost predicate ErasedFrom<T>(index: map<string, T>, after: map<string, T>, key: string, s: T) {
    if key in index then after == index - {key}
    else if exists k :: k in index && index[k] == s then
      exists k :: k in index && index[k] == s && after == index - {k}
    else after == index
  }

  datatype State = State(
    keys: map<nat, string>,  // the current key of every socket
    index: map<string, nat>,
    live: set<nat>,          // the sockets that are in the collection
    observed: set<nat>)      // the sockets that report their changes to the collection

  datatype Event = Create(s: nat, key: string) | Push(s: nat) | Remove(s: nat) | Change(s: nat, key: string)

  ghost predicate Next(a: State, e: Event, b: State) {
    match e
    case Create(s, key) => s !in a.keys && b == a.(keys := a.keys[s := key])
    case Push(s) =>
      s in a.keys && b == a.(index := a.index[a.keys[s] := s], live := a.live + {s}, observed := a.observed + {s})
    case Remove(s) =>
      && s in a.keys && ErasedFrom(a.index, b.index, a.keys[s], s)
      && b == a.(index := b.index, live := a.live - {s})
    case Change(s, key) =>
      s in a.keys &&
      if s !in a.observed then b == a.(keys := a.keys[s := key])
      else exists middle :: ErasedFrom(a.index, middle, key, s)
                            && b == a.(keys := a.keys[s := key], index := middle[key := s], live := a.live + {s})
  }

  ghost predicate Consistent(a: State) {
    a.live <= a.observed <= a.keys.Keys
  }

  /** Every live socket is found under its current key, and the index holds nothing else. */
  ghost predicate Exact(a: State) {
    && (forall s :: s in a.live ==> s in a.keys && a.keys[s] in a.index && a.index[a.keys[s]] == s)
    && (forall k :: k in a.index ==> a.index[k] in a.live && a.index[k] in a.keys && a.keys[a.index[k]] == k)
  }

  /** No other live socket has the key with which the event looks up its socket. */
  ghost predicate KeyIsFree(a: State, e: Event) {
    match e
    case Create(_, _) => true
    case Push(s) => s in a.keys && NobodyElse(a, s, a.keys[s])
    case Remove(s) => s in a.keys && NobodyElse(a, s, a.keys[s])
    case Change(s, key) => s in a.observed ==> NobodyElse(a, s, key)
  }

  ghost predicate NobodyElse(a: State, s: nat, key: string) {
    forall t :: t in a.live && t in a.keys && t != s ==> a.keys[t] != key
  }

  /** One event keeps the index exact if and only if no other live socket has the key in question:
      otherwise that socket is lost, and the entry of the changed socket may be left behind. */
  lemma StepExact(a: State, e: Event, b: State)
    requires Consistent(a) && Exact(a) && Next(a, e, b)
    ensures Consistent(b)
    ensures Exact(b) <==> KeyIsFree(a, e)
  {
  }

  ghost predicate Execution(states: seq<State>, events: seq<Event>) {
    && |states| == |events| + 1
    && states[0].index == map[] && states[0].live == {} && states[0].observed == {}
    && forall i :: 0 <= i < |events| ==> Next(states[i], events[i], states[i + 1])
  }

  /** After any run of creations, pushes, removals and address changes: the index was exact all along
      if and only if every event found its key free. */
  lemma {:induction false} RunExact(states: seq<State>, events: seq<Event>, n: nat)
    requires Execution(states, events) && n <= |events|
    ensures (forall i :: 0 <= i <= n ==> Exact(states[i]))
            <==> (forall i :: 0 <= i < n ==> KeyIsFree(states[i], events[i]))
    ensures (forall i :: 0 <= i < n ==> KeyIsFree(states[i], events[i])) ==> Consistent(states[n])
  {
    hide Next, KeyIsFree;
    if n > 0 {
      RunExact(states, events, n - 1);
      if (forall i :: 0 <= i < n - 1 ==> KeyIsFree(states[i], events[i])) {
        assert Exact(states[n - 1]);
        StepExact(states[n - 1], events[n - 1], states[n]);
      }
    }
  }

  /** In an exact index a lookup finds the live socket with that key, and nothing if there is none. */
  lemma LookupIsExact(a: State, key: string)
    requires Exact(a)
    ensures key in a.index <==> exists s :: s in a.live && s in a.keys && a.keys[s] == key
    ensures forall s :: s in a.live ==> (a.keys[s] == key <==> key in a.index && a.index[key] == s)
  {
  }

  /** A removed socket comes back with its next address change if and only if it had ever been pushed,
      because it still reports its changes. */
  lemma RemovedComesBack(a: State, s: nat, b: State, key: string, c: State)
    requires Consistent(a) && Next(a, Remove(s), b) && Next(b, Change(s, key), c)
    ensures s !in b.live
    ensures s in c.live <==> s in a.observed
    ensures s in c.live ==> key in c.index && c.index[key] == s
  {
  }

  ghost predicate Pushed(events: seq<Event>, n: nat, s: nat)
    requires n <= |events|
  {
    exists k :: 0 <= k < n && events[k] == Push(s)
  }

  /** A push, or a change of the addresses of a socket that was pushed before. */
  ghost predicate Enters(events: seq<Event>, k: nat, s: nat)
    requires k < |events|
  {
    events[k] == Push(s) || (events[k].Change? && events[k].s == s && Pushed(events, k, s))
  }

  ghost predicate EnteredLast(events: seq<Event>, n: nat, s: nat)
    requires n <= |events|
  {
    exists k :: 0 <= k < n && Enters(events, k, s) && forall j :: k < j < n ==> events[j] != Remove(s)
  }

  /** After any run, a socket reports its changes exactly if it was ever pushed, and it is in the
      collection exactly if it entered, by a push or a reported change, after its last removal. */
  lemma {:induction false} LiveExactly(states: seq<State>, events: seq<Event>, n: nat, s: nat)
    requires Execution(states, events) && n <= |events|
    ensures s in states[n].observed <==> Pushed(events, n, s)
    ensures s in states[n].live <==> EnteredLast(events, n, s)
  {
    if n > 0 {
      LiveExactly(states, events, n - 1, s);
      LiveStep(states[n - 1], events[n - 1], states[n], s);
      EnteredStep(events, n - 1, s);
    }
  }

  lemma EnteredStep(events: seq<Event>, n: nat, s: nat)
    requires n < |events|
    ensures Pushed(events, n + 1, s) <==> Pushed(events, n, s) || events[n] == Push(s)
    ensures EnteredLast(events, n + 1, s) <==>
              Enters(events, n, s) || (EnteredLast(events, n, s) && events[n] != Remove(s))
  {
    hide Enters;
    if EnteredLast(events, n, s) && events[n] != Remove(s) {
      var k :| 0 <= k < n && Enters(events, k, s) && forall j :: k < j < n ==> events[j] != Remove(s);
      assert Enters(events, k, s) && forall j :: k < j < n + 1 ==> events[j] != Remove(s);
    }
    if EnteredLast(events, n + 1, s) {
      var k :| 0 <= k < n + 1 && Enters(events, k, s) && forall j :: k < j < n + 1 ==> events[j] != Remove(s);
      assert k < n ==> Enters(events, k, s) && forall j :: k < j < n ==> events[j] != Remove(s);
    }
  }

  lemma LiveStep(a: State, e: Event, b: State, s: nat)
    requires Next(a, e, b)
    ensures s in b.observed <==> s in a.observed || e == Push(s)
    ensures s in b.live <==>
              e == Push(s) || (e.Change? && e.s == s && s in a.observed) || (s in a.live && e != Remove(s))
  {
  }
}
