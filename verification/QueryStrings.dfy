/** Query strings: a name, a '?', and a list of key=value& entries. The parser steps through a string
    with positions that wrap to the front when a separator is missing. */
module QueryStrings {
  import opened Maybes

  // An entry of a map, in the order in which the map is traversed
  datatype Entry = Entry(key: string, value: string)

  type Values = map<string, string>

  const NAME := "name"

  // ---------- searching ----------

  /** Nothing stands for npos. */
  function Find(message: string, c: char, begin: nat): (found: Maybe<nat>)
    requires begin <= |message|
    ensures match found
            case Just(i) => begin <= i < |message| && message[i] == c && forall k :: begin <= k < i ==> message[k] != c
            case Nothing => forall k :: begin <= k < |message| ==> message[k] != c
    decreases |message| - begin
  {
    if begin == |message| then Nothing
    else if message[begin] == c then Just(begin)
    else Find(message, c, begin + 1)
  }

  /** One past a position; npos wraps to 0. */
  function Past(position: Maybe<nat>): nat {
    if position.Just? then position.value + 1 else 0
  }

  /** substr from `begin` to a position, or to the end of the string. */
  function Sub(message: string, begin: nat, end: Maybe<nat>): string
    requires begin <= |message| && (end.Just? ==> begin <= end.value <= |message|)
  {
    if end.Just? then message[begin..end.value] else message[begin..]
  }

  /** Inserting into a std::map does not replace. */
  function Insert(values: Values, key: string, value: string): Values {
    if key in values then values else values[key := value]
  }

  // ---------- the parser ----------

  // The position after which to go on, and the values so far
  datatype Progress = Progress(end: Maybe<nat>, values: Values)

  /** One round of the loop. */
  function Round(message: string, begin: nat, values: Values): (after: Progress)
    requires begin < |message|
    ensures after.end.Just? ==> after.end.value < |message|
  {
    var equals := Find(message, '=', begin);
    var start := Past(equals);
    var end := Find(message, '&', start);
    Progress(end, Insert(values, Sub(message, begin, equals), Sub(message, start, end)))
  }

  /** What the loop returns, if it returns within so many rounds. */
  ghost function Loop(message: string, p: Progress, rounds: nat): Maybe<Values>
    requires p.end.Just? ==> p.end.value < |message|
    decreases rounds
  {
    if Past(p.end) >= |message| then Just(p.values)
    else if rounds == 0 then Nothing
    else Loop(message, Round(message, Past(p.end), p.values), rounds - 1)
  }

  lemma {:induction false} MoreRounds(message: string, p: Progress, rounds: nat, more: nat)
    requires (p.end.Just? ==> p.end.value < |message|) && Loop(message, p, rounds).Just? && rounds <= more
    ensures Loop(message, p, more) == Loop(message, p, rounds)
    decreases rounds
  {
    hide Round;
    if Past(p.end) < |message| {
      MoreRounds(message, Round(message, Past(p.end), p.values), rounds - 1, more - 1);
    }
  }

  /** The first position, with the name inserted; nothing if the string is malformed. */
  function Start(message: string, values: Values): (start: Maybe<Progress>)
    ensures start.Just? ==> start.value.end.Just? && start.value.end.value < |message|
  {
    var end := Find(message, '?', 0);
    if end.Nothing? then Nothing else Just(Progress(end, Insert(values, NAME, message[..end.value])))
  }

  // ---------- when the parser returns ----------

  /** From here on the string is a list of entries up to its end. */
  predicate AllEntries(message: string, begin: nat)
    requires begin <= |message|
    decreases |message| - begin
  {
    begin == |message| ||
    var equals := Find(message, '=', begin);
    equals.Just? &&
    var end := Find(message, '&', equals.value + 1);
    end.Just? && AllEntries(message, end.value + 1)
  }

  /** From here on there are entries up to the end, or up to a rest without '='. After such a rest the
      parser goes on behind the first '&' of the string, and what is there must be entries. */
  predicate Stops(message: string, begin: nat)
    requires begin <= |message|
    decreases |message| - begin
  {
    begin == |message| ||
    var equals := Find(message, '=', begin);
    if equals.Just? then
      var end := Find(message, '&', equals.value + 1);
      end.Just? && Stops(message, end.value + 1)
    else
      var first := Find(message, '&', 0);
      first.Just? && AllEntries(message, first.value + 1)
  }

  lemma {:induction false} EntriesEndInSeparator(message: string, begin: nat)
    requires begin < |message| && AllEntries(message, begin)
    ensures message[|message| - 1] == '&'
    decreases |message| - begin
  {
    var equals := Find(message, '=', begin);
    var end := Find(message, '&', equals.value + 1);
    if end.value + 1 < |message| {
      EntriesEndInSeparator(message, end.value + 1);
    }
  }

  lemma {:induction false} StopsAtSeparator(message: string, begin: nat)
    requires begin < |message| && Stops(message, begin)
    ensures message[|message| - 1] == '&'
    decreases |message| - begin
  {
    var equals := Find(message, '=', begin);
    if equals.Just? {
      var end := Find(message, '&', equals.value + 1);
      if end.value + 1 < |message| {
        StopsAtSeparator(message, end.value + 1);
      }
    } else {
      var first := Find(message, '&', 0);
      if first.value + 1 < |message| {
        EntriesEndInSeparator(message, first.value + 1);
      }
    }
  }

  lemma LastMatters(message: string, begin: nat)
    requires begin < |message| && message[|message| - 1] != '&'
    ensures !Stops(message, begin)
  {
    if Stops(message, begin) {
      StopsAtSeparator(message, begin);
    }
  }

  lemma RoundEnd(message: string, begin: nat, values: Values)
    requires begin < |message|
    ensures Round(message, begin, values).end == Find(message, '&', Past(Find(message, '=', begin)))
  {
  }

  lemma {:induction false} EntriesReturn(message: string, p: Progress) returns (rounds: nat)
    requires (p.end.Just? ==> p.end.value < |message|) && Past(p.end) <= |message| && AllEntries(message, Past(p.end))
    ensures Loop(message, p, rounds).Just?
    decreases |message| - Past(p.end)
  {
    hide Find, Round;
    if Past(p.end) == |message| {
      rounds := 0;
    } else {
      RoundEnd(message, Past(p.end), p.values);
      var less := EntriesReturn(message, Round(message, Past(p.end), p.values));
      rounds := less + 1;
    }
  }

  lemma {:induction false} StopsReturns(message: string, p: Progress) returns (rounds: nat)
    requires (p.end.Just? ==> p.end.value < |message|) && Past(p.end) <= |message| && Stops(message, Past(p.end))
    ensures Loop(message, p, rounds).Just?
    decreases |message| - Past(p.end)
  {
    hide Find, Round;
    if Past(p.end) == |message| {
      rounds := 0;
    } else {
      RoundEnd(message, Past(p.end), p.values);
      var after := Round(message, Past(p.end), p.values);
      var less;
      if Find(message, '=', Past(p.end)).Just? {
        less := StopsReturns(message, after);
      } else {
        less := EntriesReturn(message, after);
      }
      rounds := less + 1;
    }
  }

  /** If the place behind the first '&' is no list of entries, restarting there does not help. */
  lemma {:induction false} NoHelpFromRestart(message: string, begin: nat)
    requires begin <= |message| && Stops(message, begin)
    requires Find(message, '&', 0).Just? && !AllEntries(message, Find(message, '&', 0).value + 1)
    ensures AllEntries(message, begin)
    decreases |message| - begin
  {
    hide Find;
    if begin < |message| {
      var equals := Find(message, '=', begin);
      NoHelpFromRestart(message, Find(message, '&', equals.value + 1).value + 1);
    }
  }

  lemma RestartsAgain(message: string)
    requires Find(message, '&', 0).Just? && !AllEntries(message, Find(message, '&', 0).value + 1)
    ensures !Stops(message, Find(message, '&', 0).value + 1)
  {
    if Stops(message, Find(message, '&', 0).value + 1) {
      NoHelpFromRestart(message, Find(message, '&', 0).value + 1);
    }
  }

  lemma BadStaysBad(message: string, begin: nat, values: Values)
    requires begin < |message| && !Stops(message, begin)
    ensures var next := Past(Round(message, begin, values).end);
            next < |message| && !Stops(message, next)
  {
    hide Find, Sub, Insert;
    var equals := Find(message, '=', begin);
    if Find(message, '&', Past(equals)).Nothing? {
      assert message[|message| - 1] != '&';
      LastMatters(message, 0);
    } else if equals.Nothing? {
      RestartsAgain(message);
    }
  }

  lemma {:induction false} BadNeverReturns(message: string, p: Progress, rounds: nat)
    requires (p.end.Just? ==> p.end.value < |message|) && Past(p.end) < |message| && !Stops(message, Past(p.end))
    ensures Loop(message, p, rounds) == Nothing
    decreases rounds
  {
    hide Stops, Round;
    if rounds > 0 {
      BadStaysBad(message, Past(p.end), p.values);
      BadNeverReturns(message, Round(message, Past(p.end), p.values), rounds - 1);
    }
  }

  /** The loop returns, after some number of rounds, if and only if the string passes one left-to-right
      check; otherwise it goes on for ever. */
  lemma ReturnsExactly(message: string, values: Values)
    requires Start(message, values).Just?
    ensures var p := Start(message, values).value;
            (exists rounds :: Loop(message, p, rounds).Just?) <==> Stops(message, Past(p.end))
  {
    var p := Start(message, values).value;
    if Stops(message, Past(p.end)) {
      var rounds := StopsReturns(message, p);
      assert Loop(message, p, rounds).Just?;
    } else {
      forall rounds: nat ensures Loop(message, p, rounds) == Nothing {
        BadNeverReturns(message, p, rounds);
      }
    }
  }

  /** A last entry without its '&' is one way to go on for ever. */
  lemma MissingSeparatorLoops(message: string, values: Values, rounds: nat)
    requires Start(message, values).Just?
    requires message[|message| - 1] != '&' && Find(message, '?', 0).value + 1 < |message|
    ensures Loop(message, Start(message, values).value, rounds) == Nothing
  {
    var p := Start(message, values).value;
    if Stops(message, Past(p.end)) {
      StopsAtSeparator(message, Past(p.end));
    }
    BadNeverReturns(message, p, rounds);
  }

  // ---------- printing, and parsing what was printed ----------

  function Print(entries: seq<Entry>): string {
    if entries == [] then "" else entries[0].key + "=" + entries[0].value + "&" + Print(entries[1..])
  }

  function Create(name: string, entries: seq<Entry>): string {
    name + "?" + Print(entries)
  }

  predicate Clean(e: Entry) {
    '=' !in e.key && '&' !in e.value
  }

  function InsertAll(values: Values, entries: seq<Entry>): Values
    decreases |entries|
  {
    if entries == [] then values
    else InsertAll(Insert(values, entries[0].key, entries[0].value), entries[1..])
  }

  lemma FindIs(message: string, c: char, begin: nat, i: nat)
    requires begin <= i < |message| && message[i] == c && forall k :: begin <= k < i ==> message[k] != c
    ensures Find(message, c, begin) == Just(i)
  {
  }

  /** One round reads back one clean entry. */
  lemma RoundReadsEntry(message: string, begin: nat, e: Entry, rest: string, values: Values)
    requires begin <= |message| && message[begin..] == e.key + "=" + e.value + "&" + rest && Clean(e)
    ensures begin < |message|
    ensures var after := Round(message, begin, values);
            && after.end.Just? && after.values == Insert(values, e.key, e.value)
            && after.end.value < |message| && message[after.end.value + 1..] == rest
  {
    hide Find, Insert;
    var equals, end := begin + |e.key|, begin + |e.key| + 1 + |e.value|;
    Pieces(message, begin, e.key, e.value, rest);
    FindIs(message, '=', begin, equals);
    FindIs(message, '&', equals + 1, end);
  }

  lemma Pieces(message: string, begin: nat, key: string, value: string, rest: string)
    requires begin <= |message| && message[begin..] == key + "=" + value + "&" + rest
    ensures var equals, end := begin + |key|, begin + |key| + 1 + |value|;
            && end < |message| && message[equals] == '=' && message[end] == '&'
            && message[begin..equals] == key && message[equals + 1..end] == value && message[end + 1..] == rest
            && (forall k :: begin <= k < equals ==> message[k] == key[k - begin])
            && (forall k :: equals < k < end ==> message[k] == value[k - equals - 1])
  {
    var tail := message[begin..];
    assert tail[|key|] == '=' && tail[|key| + 1 + |value|] == '&';
    assert tail[..|key|] == key && tail[|key| + 1..|key| + 1 + |value|] == value && tail[|key| + |value| + 2..] == rest;
    assert forall k :: begin <= k < |message| ==> message[k] == tail[k - begin];
  }

  lemma {:induction false} ReadsEntries(message: string, p: Progress, entries: seq<Entry>)
    requires p.end.Just? && p.end.value < |message| && message[p.end.value + 1..] == Print(entries)
    requires forall e :: e in entries ==> Clean(e)
    ensures Loop(message, p, |entries|) == Just(InsertAll(p.values, entries))
    decreases |entries|
  {
    hide Round;
    if entries != [] {
      RoundReadsEntry(message, Past(p.end), entries[0], Print(entries[1..]), p.values);
      ReadsEntries(message, Round(message, Past(p.end), p.values), entries[1..]);
    }
  }

  /** The entries, each under its key, and the name under its own, whatever else was to go there. */
  ghost predicate Restores(m: Values, name: string, entries: seq<Entry>) {
    && NAME in m && m[NAME] == name
    && (forall e :: e in entries && e.key != NAME ==> e.key in m && m[e.key] == e.value)
    && (forall k :: k in m ==> k == NAME || exists e :: e in entries && e.key == k)
  }

  ghost predicate DistinctKeys(entries: seq<Entry>) {
    forall i, j :: 0 <= i < j < |entries| ==> entries[i].key != entries[j].key
  }

  lemma {:induction false} InsertsAll(values: Values, entries: seq<Entry>)
    requires DistinctKeys(entries)
    ensures forall k :: k in values ==> k in InsertAll(values, entries) && InsertAll(values, entries)[k] == values[k]
    ensures forall e :: e in entries && e.key !in values ==>
              e.key in InsertAll(values, entries) && InsertAll(values, entries)[e.key] == e.value
    ensures forall k :: k in InsertAll(values, entries) ==> k in values || exists e :: e in entries && e.key == k
    decreases |entries|
  {
    if entries != [] {
      assert forall e :: e in entries <==> e == entries[0] || e in entries[1..];
      InsertsAll(Insert(values, entries[0].key, entries[0].value), entries[1..]);
    }
  }

  lemma InsertsAllRestores(name: string, entries: seq<Entry>)
    requires DistinctKeys(entries)
    ensures Restores(InsertAll(map[NAME := name], entries), name, entries)
  {
    hide InsertAll;
    var named: Values := map[NAME := name];
    InsertsAll(named, entries);
    assert named[NAME] == name;
  }

  lemma StartsAfterName(name: string, rest: string)
    requires '?' !in name
    ensures Start(name + "?" + rest, map[]) == Just(Progress(Just(|name|), map[NAME := name]))
    ensures (name + "?" + rest)[|name| + 1..] == rest
  {
    FindIs(name + "?" + rest, '?', 0, |name|);
    assert (name + "?" + rest)[..|name|] == name;
  }

  /** What the printer makes of a name and a map, the parser reads back. */
  lemma RoundTrip(name: string, entries: seq<Entry>)
    requires '?' !in name && DistinctKeys(entries) && forall e :: e in entries ==> Clean(e)
    ensures var start := Start(Create(name, entries), map[]);
            && start.Just?
            && Loop(Create(name, entries), start.value, |entries|).Just?
            && Restores(Loop(Create(name, entries), start.value, |entries|).value, name, entries)
  {
    hide Start, Loop, InsertAll, Print, Clean, Restores, DistinctKeys;
    StartsAfterName(name, Print(entries));
    ReadsEntries(Create(name, entries), Progress(Just(|name|), map[NAME := name]), entries);
    InsertsAllRestores(name, entries);
  }

  /** A value once in the map is never replaced, whatever is printed under its key: an entry called
      "name" gives way to the name. Everything else that is parsed is clean. */
  lemma {:induction false} ParsedIsClean(message: string, p: Progress, rounds: nat)
    requires (p.end.Just? ==> p.end.value < |message|) && Loop(message, p, rounds).Just?
    ensures var m := Loop(message, p, rounds).value;
            && (forall k :: k in p.values ==> k in m && m[k] == p.values[k])
            && (forall k :: k in m && k !in p.values ==> Clean(Entry(k, m[k])))
    decreases rounds
  {
    hide Round;
    if Past(p.end) < |message| {
      RoundIsClean(message, Past(p.end), p.values);
      ParsedIsClean(message, Round(message, Past(p.end), p.values), rounds - 1);
    }
  }

  lemma RoundIsClean(message: string, begin: nat, values: Values)
    requires begin < |message|
    ensures var after := Round(message, begin, values).values;
            && (forall k :: k in values ==> k in after && after[k] == values[k])
            && (forall k :: k in after && k !in values ==> Clean(Entry(k, after[k])))
  {
    hide Find;
    var equals := Find(message, '=', begin);
    var end := Find(message, '&', Past(equals));
    SubIsClean(message, '=', begin);
    SubIsClean(message, '&', Past(equals));
  }

  lemma SubIsClean(message: string, c: char, begin: nat)
    requires begin <= |message|
    ensures c !in Sub(message, begin, Find(message, c, begin))
  {
    hide Find;
  }

  /** For maps without an entry called "name", printing and parsing is the identity if and only if the
      name has no '?', no key has a '=' and no value has a '&'. */
  lemma RoundTripExactly(name: string, entries: seq<Entry>)
    requires DistinctKeys(entries) && forall e :: e in entries ==> e.key != NAME
    ensures (exists rounds :: ReadsBack(name, entries, rounds))
            <==> '?' !in name && forall e :: e in entries ==> Clean(e)
  {
    hide DistinctKeys, Start, Create, Clean;
    if '?' !in name && forall e :: e in entries ==> Clean(e) {
      RoundTrip(name, entries);
      assert ReadsBack(name, entries, |entries|);
    }
    forall rounds: nat | ReadsBack(name, entries, rounds)
      ensures '?' !in name && forall e :: e in entries ==> Clean(e)
    {
      BackIsClean(name, entries, rounds);
    }
  }

  ghost predicate ReadsBack(name: string, entries: seq<Entry>, rounds: nat) {
    var start := Start(Create(name, entries), map[]);
    start.Just? &&
    var m := Loop(Create(name, entries), start.value, rounds);
    m.Just? && Restores(m.value, name, entries)
  }

  lemma BackIsClean(name: string, entries: seq<Entry>, rounds: nat)
    requires ReadsBack(name, entries, rounds) && forall e :: e in entries ==> e.key != NAME
    ensures '?' !in name && forall e :: e in entries ==> Clean(e)
  {
    hide Create, Find;
    var start := Start(Create(name, entries), map[]).value;
    ParsedIsClean(Create(name, entries), start, rounds);
  }

  /** For example, and if a key comes twice the first one stays. */
  lemma PortExample()
    ensures Create("tcp", [Entry("port", "80")]) == "tcp?port=80&"
    ensures var start := Start("tcp?port=80&", map[]);
            start.Just? && Loop("tcp?port=80&", start.value, 1) == Just(map["name" := "tcp", "port" := "80"])
    ensures var start := Start("tcp?port=80&port=90&", map[]);
            start.Just? && Loop("tcp?port=80&port=90&", start.value, 2) == Just(map["name" := "tcp", "port" := "80"])
  {
    hide Start, Loop, Print, InsertAll, Clean;
    var once, twice := [Entry("port", "80")], [Entry("port", "80"), Entry("port", "90")];
    PrintOne(once[0]);
    PrintTwo(once[0], twice[1]);
    CleanEntry("port", "80");
    CleanEntry("port", "90");
    ParsesPrinted("tcp", once);
    ParsesPrinted("tcp", twice);
    InsertTwo(map["name" := "tcp"], "port", "80", "90");
    assert "tcp" + "?" + ("port" + "=" + "80" + "&") == "tcp?port=80&";
    assert "tcp" + "?" + ("port" + "=" + "80" + "&" + ("port" + "=" + "90" + "&")) == "tcp?port=80&port=90&";
  }

  /** Behind a rest without '=' the parser starts again at the front, with the rest as a key. */
  lemma RestartExample()
    ensures var start := Start("x&k=?z&", map[]);
            && start.Just?
            && Loop("x&k=?z&", start.value, 2) == Just(map["name" := "x&k=", "z&" := "x", "k" := "?z"])
  {
    hide Find, Loop;
    var message := "x&k=?z&";
    FindIs(message, '?', 0, 4);
    FindIs(message, '&', 0, 1);
    FindIs(message, '=', 2, 3);
    FindIs(message, '&', 4, 6);
    assert Find(message, '=', 5) == Nothing;
    var first := Progress(Just(4), map["name" := "x&k="]);
    var second := Progress(Just(1), map["name" := "x&k=", "z&" := "x"]);
    var third := Progress(Just(6), map["name" := "x&k=", "z&" := "x", "k" := "?z"]);
    assert message[..4] == "x&k=" && message[5..] == "z&" && message[0..1] == "x";
    assert Round(message, 5, first.values) == second;
    assert message[2..3] == "k" && message[4..6] == "?z";
    assert Round(message, 2, second.values) == third;
    LoopStep(message, first, 1);
    LoopStep(message, second, 0);
    assert Loop(message, third, 0) == Just(third.values) by { LoopEnds(message, third); }
  }

  lemma LoopStep(message: string, p: Progress, rounds: nat)
    requires (p.end.Just? ==> p.end.value < |message|) && Past(p.end) < |message|
    ensures Loop(message, p, rounds + 1) == Loop(message, Round(message, Past(p.end), p.values), rounds)
  {
  }

  lemma LoopEnds(message: string, p: Progress)
    requires (p.end.Just? ==> p.end.value < |message|) && Past(p.end) >= |message|
    ensures Loop(message, p, 0) == Just(p.values)
  {
  }

  lemma CleanEntry(key: string, value: string)
    requires '=' !in key && '&' !in value
    ensures Clean(Entry(key, value))
  {
  }

  lemma PrintOne(e: Entry)
    ensures Print([e]) == e.key + "=" + e.value + "&"
  {
    assert [e][1..] == [];
  }

  lemma PrintTwo(e: Entry, f: Entry)
    ensures Print([e, f]) == e.key + "=" + e.value + "&" + (f.key + "=" + f.value + "&")
  {
    assert [e, f][1..] == [f];
    PrintOne(f);
  }

  lemma InsertTwo(values: Values, key: string, first: string, second: string)
    requires key !in values
    ensures InsertAll(values, [Entry(key, first)]) == values[key := first]
    ensures InsertAll(values, [Entry(key, first), Entry(key, second)]) == values[key := first]
  {
    assert [Entry(key, first)][1..] == [];
    assert [Entry(key, first), Entry(key, second)][1..] == [Entry(key, second)];
    assert [Entry(key, second)][1..] == [];
  }

  /** What is parsed from printed entries, key by key in their order. */
  lemma ParsesPrinted(name: string, entries: seq<Entry>)
    requires '?' !in name && forall e :: e in entries ==> Clean(e)
    ensures var start := Start(Create(name, entries), map[]);
            && start.Just?
            && Loop(Create(name, entries), start.value, |entries|) == Just(InsertAll(map["name" := name], entries))
  {
    hide Start, Loop, InsertAll, Print, Clean;
    StartsAfterName(name, Print(entries));
    ReadsEntries(Create(name, entries), Progress(Just(|name|), map[NAME := name]), entries);
  }

  // ---------- the program ----------

  method CreateString(name: string, values: seq<Entry>) returns (message: string)
    ensures message == Create(name, values)
  {
    message := name + "?";
    for i := 0 to |values|
      invariant message + Print(values[i..]) == Create(name, values)
    {
      assert values[i..][0] == values[i] && values[i..][1..] == values[i + 1..];
      message := message + (values[i].key + "=" + values[i].value + "&");
    }
    assert values[|values|..] == [];
  }

  /** Called where the loop returns, it returns what any sufficient number of rounds gives; a string
      without '?' raises an exception. */
  method Parse(message: string, values: Values) returns (result: Maybe<Values>)
    requires Start(message, values).Just? ==> Stops(message, Past(Start(message, values).value.end))
    ensures result.Just? <==> '?' in message
    ensures result.Just? ==> exists rounds :: Loop(message, Start(message, values).value, rounds) == result
  {
    hide Stops, AllEntries;
    var end := Find(message, '?', 0);
    if end.Nothing? {
      return Nothing;
    }
    var read := Insert(values, NAME, message[..end.value]);
    ghost var first := Progress(end, read);
    ghost var rounds := StopsReturns(message, first);
    ghost var left := rounds;
    while true
      invariant end.Just? ==> end.value < |message|
      invariant Loop(message, Progress(end, read), left) == Loop(message, first, rounds)
      decreases left
    {
      var begin := Past(end);
      if begin >= |message| {
        break;
      }
      left := left - 1;
      end := Find(message, '=', begin);
      var key := Sub(message, begin, end);
      begin := Past(end);
      end := Find(message, '&', begin);
      read := Insert(read, key, Sub(message, begin, end));
    }
    result := Just(read);
  }
}
