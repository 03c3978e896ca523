/** The options of a TCP header (section 3.1 of RFC 793), parsed once, and the two values that
    packets are searched for. */
module TcpOptions {
  import opened Bytes
  import opened Maybes

  const EOL: byte := 0
  const NOP: byte := 1
  const MAXSEG: byte := 2
  const TIMESTAMP: byte := 8
  const OLEN_MAXSEG: nat := 4
  const OLEN_TIMESTAMP: nat := 10

  // `at` is the offset of the option's kind byte, `size` counts all its bytes
  datatype Opt = Opt(kind: byte, at: nat, size: nat)

  /** The options from offset `at` on, up to the end of the list or the first one that is silly
      (shorter than two bytes) or partial. */
  function Parse(options: seq<byte>, at: nat): seq<Opt>
    requires at <= |options|
    decreases |options| - at
  {
    if at == |options| || options[at] == EOL then []
    else if options[at] == NOP then Parse(options, at + 1)
    else if at + 1 == |options| then []
    else
      var size := options[at + 1];
      if size < 2 || size > |options| - at then []
      else [Opt(options[at], at, size)] + Parse(options, at + size)
  }

  function First(parsed: seq<Opt>, kind: byte): Maybe<Opt> {
    if parsed == [] then Nothing
    else if parsed[0].kind == kind then Just(parsed[0])
    else First(parsed[1..], kind)
  }

  /** The offset of the value of the first option of a kind, if that option has the right size. */
  function Find(options: seq<byte>, kind: byte, size: nat): Maybe<nat> {
    match First(Parse(options, 0), kind)
    case Nothing => Nothing
    case Just(o) => if o.size == size then Just(o.at + 2) else Nothing
  }

  /** One round of either walk at offset `at`, looking for `kind`. */
  lemma WalkStep(options: seq<byte>, at: nat, kind: byte)
    requires at < |options|
    ensures var found := First(Parse(options, at), kind);
            if options[at] == EOL then found == Nothing
            else if options[at] == NOP then found == First(Parse(options, at + 1), kind)
            else if at + 1 == |options| || options[at + 1] < 2 || options[at + 1] > |options| - at then found == Nothing
            else if options[at] == kind then found == Just(Opt(kind, at, options[at + 1]))
            else found == First(Parse(options, at + options[at + 1]), kind)
  {
    if at + 1 < |options| {
      var size := options[at + 1];
      if 2 <= size <= |options| - at {
        var head, rest := Opt(options[at], at, size), Parse(options, at + size);
        assert ([head] + rest)[1..] == rest;
      }
    }
  }

  lemma WalkEnds(options: seq<byte>)
    ensures Parse(options, |options|) == []
    ensures First([], MAXSEG) == Nothing && First([], TIMESTAMP) == Nothing
  {
  }

  // ---------- the walk, told by the offsets it visits ----------

  /** An option that says its own length, and is neither silly nor partial. */
  predicate Whole(options: seq<byte>, a: nat) {
    a + 1 < |options| && options[a] > 1 && 2 <= options[a + 1] && a + options[a + 1] <= |options|
  }

  /** What the walk looks at after offset `a`: a byte of kind 1 stands alone, one of kind 0 ends the list. */
  predicate Follows(options: seq<byte>, a: nat, b: nat) {
    a < |options| && if options[a] == 1 then b == a + 1 else Whole(options, a) && b == a + options[a + 1]
  }

  /** A walk from `a` to `b`, on which no option of this kind stands in front of `b`. */
  ghost predicate Walks(options: seq<byte>, kind: byte, path: seq<nat>, a: nat, b: nat) {
    && path != [] && path[0] == a && path[|path| - 1] == b
    && (forall i :: 0 <= i < |path| - 1 ==> Follows(options, path[i], path[i + 1]) && options[path[i]] != kind)
  }

  /** The option at offset `b` is the first of its kind that a walk from the front finds. */
  ghost predicate FirstOption(options: seq<byte>, kind: byte, b: nat) {
    Whole(options, b) && options[b] == kind && exists path :: Walks(options, kind, path, 0, b)
  }

  lemma {:induction false} FirstIsWalked(options: seq<byte>, a: nat, kind: byte) returns (path: seq<nat>)
    requires a <= |options| && kind > 1 && First(Parse(options, a), kind).Just?
    ensures var o := First(Parse(options, a), kind).value;
            && Walks(options, kind, path, a, o.at)
            && Whole(options, o.at) && o == Opt(kind, o.at, options[o.at + 1]) && options[o.at] == kind
    decreases |options| - a
  {
    hide Parse, First;
    if a == |options| {
      assert Parse(options, a) == [] && First([], kind) == Nothing by { NothingBehind(options, kind); }
      path := [];
    } else {
      WalkStep(options, a, kind);
      if options[a] == kind {
        path := [a];
      } else {
        var next := if options[a] == 1 then a + 1 else a + options[a + 1];
        var rest := FirstIsWalked(options, next, kind);
        path := [a] + rest;
      }
    }
  }

  lemma NothingBehind(options: seq<byte>, kind: byte)
    ensures Parse(options, |options|) == [] && First([], kind) == Nothing
  {
  }

  lemma {:induction false} WalkedIsFirst(options: seq<byte>, a: nat, kind: byte, path: seq<nat>, b: nat)
    requires kind > 1 && Walks(options, kind, path, a, b) && Whole(options, b) && options[b] == kind
    ensures a < |options| && First(Parse(options, a), kind) == Just(Opt(kind, b, options[b + 1]))
    decreases |path|
  {
    hide Parse, First;
    if |path| == 1 {
      WalkStep(options, a, kind);
    } else {
      assert Follows(options, path[0], path[1]);
      WalkedIsFirst(options, path[1], kind, path[1..], b);
      WalkStep(options, a, kind);
    }
  }

  /** The parser finds an option exactly if the walk does. */
  lemma FirstExactly(options: seq<byte>, kind: byte, b: nat)
    requires kind > 1
    ensures FirstOption(options, kind, b)
            <==> b + 1 < |options| && First(Parse(options, 0), kind) == Just(Opt(kind, b, options[b + 1]))
  {
    hide Parse, First, Walks;
    if FirstOption(options, kind, b) {
      var path :| Walks(options, kind, path, 0, b);
      WalkedIsFirst(options, 0, kind, path, b);
    } else if b + 1 < |options| && First(Parse(options, 0), kind) == Just(Opt(kind, b, options[b + 1])) {
      var path := FirstIsWalked(options, 0, kind);
    }
  }

  /** Nothing is found exactly if the walk meets no option of this kind. */
  lemma NoneExactly(options: seq<byte>, kind: byte)
    requires kind > 1
    ensures First(Parse(options, 0), kind) == Nothing <==> forall b: nat :: !FirstOption(options, kind, b)
  {
    hide Parse, First, Walks;
    if First(Parse(options, 0), kind).Just? {
      var b := First(Parse(options, 0), kind).value.at;
      var path := FirstIsWalked(options, 0, kind);
      assert FirstOption(options, kind, b);
    }
    forall b: nat | FirstOption(options, kind, b) ensures First(Parse(options, 0), kind).Just? {
      FirstExactly(options, kind, b);
    }
  }

  lemma {:induction false} ParsedInside(options: seq<byte>, at: nat)
    requires at <= |options|
    ensures forall o :: o in Parse(options, at) ==>
              at <= o.at && 2 <= o.size && o.at + o.size <= |options| && options[o.at] == o.kind
    decreases |options| - at
  {
    if at == |options| || options[at] == EOL {
    } else if options[at] == NOP {
      ParsedInside(options, at + 1);
    } else if at + 1 < |options| && 2 <= options[at + 1] <= |options| - at {
      ParsedInside(options, at + options[at + 1]);
    }
  }

  lemma {:induction false} FirstIsParsed(parsed: seq<Opt>, kind: byte)
    ensures match First(parsed, kind)
            case Just(o) => o in parsed && o.kind == kind
            case Nothing => forall o :: o in parsed ==> o.kind != kind
  {
    if parsed != [] && parsed[0].kind != kind {
      FirstIsParsed(parsed[1..], kind);
    }
  }

  /** What `Find` finds lies inside the list, behind the kind and the size byte of its option. */
  lemma FoundInside(options: seq<byte>, kind: byte, size: nat)
    requires size >= 2
    ensures match Find(options, kind, size)
            case Nothing => true
            case Just(v) => v >= 2 && v + size - 2 <= |options| && options[v - 2] == kind
                            && Opt(kind, v - 2, size) in Parse(options, 0)
  {
    hide Parse, First;
    ParsedInside(options, 0);
    FirstIsParsed(Parse(options, 0), kind);
  }

  lemma {:induction false} ParsedApart(options: seq<byte>, at: nat, o: Opt, q: Opt)
    requires at <= |options| && o in Parse(options, at) && q in Parse(options, at) && o != q
    ensures o.at + o.size <= q.at || q.at + q.size <= o.at
    decreases |options| - at
  {
    ParsedInside(options, at);
    if options[at] == NOP {
      ParsedApart(options, at + 1, o, q);
    } else {
      var size := options[at + 1];
      var head, rest := Opt(options[at], at, size), Parse(options, at + size);
      ParsedInside(options, at + size);
      if o in rest && q in rest {
        ParsedApart(options, at + size, o, q);
      }
    }
  }

  // ---------- lowering the maximum segment size ----------

  /** The value of the MAXSEG option the walk reaches. */
  function Mss(options: seq<byte>): Maybe<u16> {
    FoundInside(options, MAXSEG, OLEN_MAXSEG);
    match Find(options, MAXSEG, OLEN_MAXSEG)
    case Nothing => Nothing
    case Just(v) => Just(FromNetwork(options, v))
  }

  /** The eight value bytes of the TIMESTAMP option the walk reaches. */
  function Timestamp(options: seq<byte>): Maybe<seq<byte>> {
    FoundInside(options, TIMESTAMP, OLEN_TIMESTAMP);
    match Find(options, TIMESTAMP, OLEN_TIMESTAMP)
    case Nothing => Nothing
    case Just(v) => Just(options[v..v + 8])
  }

  function LowerMss(options: seq<byte>, extra: u16): (lowered: seq<byte>)
    ensures |lowered| == |options|
  {
    FoundInside(options, MAXSEG, OLEN_MAXSEG);
    match Find(options, MAXSEG, OLEN_MAXSEG)
    case Nothing => options
    case Just(v) =>
      var mss := Minus(FromNetwork(options, v), extra);
      options[v := High(mss)][v + 1 := Low(mss)]
  }

  /** Bytes inside the value of a parsed option have no influence on parsing. */
  lemma {:induction false} ParseIgnoresValues(a: seq<byte>, b: seq<byte>, at: nat, o: Opt)
    requires |a| == |b| && at <= |a| && (o in Parse(a, at) || o.at + o.size <= at)
    requires forall i :: 0 <= i < |a| && !(o.at + 2 <= i < o.at + o.size) ==> a[i] == b[i]
    ensures Parse(a, at) == Parse(b, at)
    decreases |a| - at
  {
    if at == |a| || a[at] == EOL {
    } else if a[at] == NOP {
      ParsedInside(a, at + 1);
      ParseIgnoresValues(a, b, at + 1, o);
    } else if at + 1 < |a| && 2 <= a[at + 1] <= |a| - at {
      ParsedInside(a, at + a[at + 1]);
      ParseIgnoresValues(a, b, at + a[at + 1], o);
    }
  }

  /** Lowering writes at most the two value bytes, keeps every option where it is, and lowers the
      value modulo 2^16. */
  lemma LoweringIsLocal(options: seq<byte>, extra: u16)
    ensures var lowered := LowerMss(options, extra);
            && Parse(lowered, 0) == Parse(options, 0)
            && (match Find(options, MAXSEG, OLEN_MAXSEG)
                case Nothing => lowered == options
                case Just(v) =>
                  && v + 2 <= |options|
                  && (forall i :: 0 <= i < |options| && i != v && i != v + 1 ==> lowered[i] == options[i])
                  && Mss(lowered) == Just(Minus(Mss(options).value, extra)))
  {
    hide Parse, First, FromNetwork, Minus, High, Low;
    FoundInside(options, MAXSEG, OLEN_MAXSEG);
    match Find(options, MAXSEG, OLEN_MAXSEG)
    case Nothing =>
    case Just(v) =>
      var lowered := LowerMss(options, extra);
      ParseIgnoresValues(options, lowered, 0, Opt(MAXSEG, v - 2, OLEN_MAXSEG));
      assert Find(lowered, MAXSEG, OLEN_MAXSEG) == Just(v);
      NetworkRoundTrip(lowered, v, Minus(FromNetwork(options, v), extra));
  }

  /** Lowering never changes what the timestamp walk returns. */
  lemma LoweringKeepsTimestamp(options: seq<byte>, extra: u16)
    ensures Timestamp(LowerMss(options, extra)) == Timestamp(options)
  {
    hide Parse, First, Minus, FromNetwork;
    LoweringIsLocal(options, extra);
    FoundInside(options, MAXSEG, OLEN_MAXSEG);
    FoundInside(options, TIMESTAMP, OLEN_TIMESTAMP);
    match (Find(options, MAXSEG, OLEN_MAXSEG), Find(options, TIMESTAMP, OLEN_TIMESTAMP)) {
      case (Just(v), Just(t)) =>
        ParsedApart(options, 0, Opt(MAXSEG, v - 2, OLEN_MAXSEG), Opt(TIMESTAMP, t - 2, OLEN_TIMESTAMP));
        assert LowerMss(options, extra)[t..t + 8] == options[t..t + 8];
      case _ =>
    }
  }

  /** Lowering by `a` and then by `b` is lowering by their sum modulo 2^16. */
  lemma LoweringAdds(options: seq<byte>, a: u16, b: u16)
    ensures LowerMss(LowerMss(options, a), b) == LowerMss(options, Plus(a, b))
  {
    LoweringIsLocal(options, a);
    match Find(options, MAXSEG, OLEN_MAXSEG)
    case Nothing =>
    case Just(v) =>
      MinusAdds(Mss(options).value, a, b);
  }

  lemma MinusAdds(n: u16, a: u16, b: u16)
    ensures Minus(Minus(n, a), b) == Minus(n, Plus(a, b))
  {
  }

  // ---------- what is read and written, in bytes ----------

  /** The eight bytes behind kind and size of the first option of kind 8, in their order, if its size is
      10; nothing otherwise, whatever stands in front of it. */
  ghost predicate CarriesTimestamp(options: seq<byte>, option: Maybe<seq<byte>>) {
    && (forall b: nat :: FirstOption(options, 8, b) && options[b + 1] == 10 ==> option == Just(options[b + 2..b + 10]))
    && (option.Just? ==> exists b: nat :: FirstOption(options, 8, b) && options[b + 1] == 10)
  }

  lemma TimestampExactly(options: seq<byte>)
    ensures CarriesTimestamp(options, Timestamp(options))
  {
    hide Parse, First, Walks;
    forall b: nat | FirstOption(options, 8, b) ensures First(Parse(options, 0), 8) == Just(Opt(8, b, options[b + 1])) {
      FirstExactly(options, 8, b);
    }
    if Timestamp(options).Just? {
      FirstIsFound(options, 8, 10);
      FirstExactly(options, 8, Find(options, 8, 10).value - 2);
    }
  }

  lemma FirstIsFound(options: seq<byte>, kind: byte, size: nat)
    requires kind > 1 && size >= 2 && Find(options, kind, size).Just?
    ensures var b := Find(options, kind, size).value - 2;
            b >= 0 && b + 1 < |options| && options[b + 1] == size
            && First(Parse(options, 0), kind) == Just(Opt(kind, b, options[b + 1]))
  {
    hide Parse, First;
    var path := FirstIsWalked(options, 0, kind);
  }

  /** Lowering writes the two bytes behind kind and size of the first option of kind 2, if its size is 4. */
  lemma LoweredExactly(options: seq<byte>, extra: u16)
    ensures forall b: nat :: FirstOption(options, 2, b) && options[b + 1] == 4 ==>
              var high: int, low: int := options[b + 2], options[b + 3];
              var mss := (high * 256 + low - extra) % 0x1_0000;
              && Mss(options) == Just(high * 256 + low)
              && LowerMss(options, extra) == options[b + 2 := mss / 256][b + 3 := mss % 256]
    ensures LowerMss(options, extra) == options || exists b: nat :: FirstOption(options, 2, b) && options[b + 1] == 4
  {
    hide Parse, First, Walks, Minus;
    forall b: nat | FirstOption(options, 2, b) ensures First(Parse(options, 0), 2) == Just(Opt(2, b, options[b + 1])) {
      FirstExactly(options, 2, b);
    }
    if Find(options, 2, 4).Just? {
      FirstIsFound(options, 2, 4);
      FirstExactly(options, 2, Find(options, 2, 4).value - 2);
      FoundInside(options, 2, 4);
      WrapsAround(FromNetwork(options, Find(options, 2, 4).value), extra);
    }
  }

  /** A list as it stands in a SYN: an MSS of 1460, SACK permitted, and a timestamp. */
  lemma SynOptions(stamp: seq<byte>)
    requires |stamp| == 8
    ensures var options: seq<byte> := [2, 4, 5, 180, 4, 2, 8, 10] + stamp;
            && Timestamp(options) == Just(stamp) && Mss(options) == Just(1460)
            && LowerMss(options, 10) == [2, 4, 5, 170, 4, 2, 8, 10] + stamp
  {
    hide Parse, First, Find, Timestamp, Mss, LowerMss;
    var options: seq<byte> := [2, 4, 5, 180, 4, 2, 8, 10] + stamp;
    assert Walks(options, 8, [0, 4, 6], 0, 6) && Walks(options, 2, [0], 0, 0);
    assert FirstOption(options, 8, 6) && FirstOption(options, 2, 0);
    assert options[8..16] == stamp;
    TimestampExactly(options);
    LoweredExactly(options, 10);
    assert options[2 := 5][3 := 170] == [2, 4, 5, 170, 4, 2, 8, 10] + stamp;
  }

  /** Padding is passed over, and the end of the list is respected. */
  lemma PaddedOptions(stamp: seq<byte>)
    requires |stamp| == 8
    ensures Timestamp([1, 1, 8, 10] + stamp) == Just(stamp)
    ensures Timestamp([1, 0, 8, 10] + stamp) == Nothing
  {
    hide Find;
    var padded: seq<byte> := [1, 1, 8, 10] + stamp;
    var ended: seq<byte> := [1, 0, 8, 10] + stamp;
    assert Walks(padded, 8, [0, 1, 2], 0, 2);
    assert FirstOption(padded, 8, 2) && padded[4..12] == stamp;
    TimestampExactly(padded);
    WalkStep(ended, 0, 8);
    WalkStep(ended, 1, 8);
    Unfound(ended);
  }

  lemma Unfound(options: seq<byte>)
    requires First(Parse(options, 0), 8) == Nothing
    ensures Timestamp(options) == Nothing
  {
  }
}
