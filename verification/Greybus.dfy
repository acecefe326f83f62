/**
 * Loading firmware over Greybus: one request per block, each block hashed while the next is on its way. A wait ends with
 * the first message whose handler answers nonzero, whether or not that message is the answer to the request.
 */
module Greybus {
  import opened Words
  import opened Sha256Stream

  const GB_MAX_PAYLOAD_SIZE: nat := 0x7F0
  const GB_BOOT_ERR_INVALID: int := -1
  const ENODEV: int := 19

  const OP_FIRMWARE_SIZE_RESPONSE: Byte := 0x82
  const OP_GET_FIRMWARE_RESPONSE: Byte := 0x83
  const OP_READY_TO_BOOT_RESPONSE: Byte := 0x84

  datatype Option<T> = None | Some(value: T)

  /**
   * A message of the other side, by what its handler makes of it: answered and passed over, refused, AP_READY, or one of
   * the three responses with its status.
   */
  datatype Message = Quiet | Refused | ApReady | SizeResponse(ok: bool) | ReadyResponse(ok: bool) | Firmware(ok: bool, data: seq<Byte>)

  // ----- one wait ---------------------------------------------------------------------------------

  /** How a wait ends: return code, responded_op, messages left, and the data copied, if any. */
  datatype Wait = Wait(rc: int, op: Byte, rest: seq<Message>, got: Option<seq<Byte>>)

  /** greybus_loop while a buffer of the given size is registered. */
  ghost function Awaited(inbox: seq<Message>, op: Byte, size: nat): Wait
    decreases |inbox|
  {
    if |inbox| == 0 then Wait(-1, op, [], None)
    else
      match inbox[0]
      case Quiet => Awaited(inbox[1..], op, size)
      case Refused => Wait(-1, op, inbox[1..], None)
      case ApReady => Wait(0, op, inbox[1..], None)
      case SizeResponse(ok) => Wait(if ok then 0 else -1, OP_FIRMWARE_SIZE_RESPONSE, inbox[1..], None)
      case ReadyResponse(ok) => Wait(if ok then 0 else -1, OP_READY_TO_BOOT_RESPONSE, inbox[1..], None)
      case Firmware(ok, data) =>
        if ok && |data| == size then Wait(0, OP_GET_FIRMWARE_RESPONSE, inbox[1..], Some(data))
        else Wait(-1, OP_GET_FIRMWARE_RESPONSE, inbox[1..], None)
  }

  // ----- one request, one load ----------------------------------------------------------------------

  /** The state of the link: what is left of the send results and of the messages to come is part of it. */
  datatype LinkState = LinkState(offset: Word, op: Byte, sends: seq<bool>, inbox: seq<Message>)

  /** A load that went through: the state after it and what the destination then holds. */
  datatype Loaded = Loaded(st: LinkState, text: seq<Byte>)

  ghost function Prepend(a: seq<Byte>, r: Option<Loaded>): Option<Loaded> {
    if r.None? then None else Some(Loaded(r.value.st, a + r.value.text))
  }

  /** One GET_FIRMWARE request into a place that held was. */
  ghost function Request(st: LinkState, was: seq<Byte>): Option<Loaded> {
    var sends := if |st.sends| > 0 then st.sends[1..] else [];
    if |st.sends| > 0 && !st.sends[0] then None else
    var w := Awaited(st.inbox, st.op, |was|);
    if w.rc != 0 || w.op != OP_GET_FIRMWARE_RESPONSE then None else
    Some(Loaded(LinkState(Wrap(st.offset + |was|), w.op, sends, w.rest), if w.got.Some? then w.got.value else was))
  }

  /** The length of the next block. */
  function BlockLength(length: nat): (n: nat)
    ensures n <= length && (length > 0 ==> n > 0)
  {
    if length > GB_MAX_PAYLOAD_SIZE then GB_MAX_PAYLOAD_SIZE else length
  }

  /** All the requests of a load. */
  ghost function Run(st: LinkState, was: seq<Byte>): Option<Loaded>
    decreases |was|
  {
    if |was| == 0 then Some(Loaded(st, []))
    else
      var n := BlockLength(|was|);
      var r := Request(st, was[..n]);
      if r.None? then None else Prepend(r.value.text, Run(r.value.st, was[n..]))
  }

  /** data_load_greybus_load, with the bound tested in 32-bit arithmetic. */
  ghost function LoadRun(firmwareSize: Word, st: LinkState, was: seq<Byte>): Option<Loaded> {
    if Wrap(st.offset + |was|) > firmwareSize then None else Run(st, was)
  }

  lemma {:induction false} RunLength(st: LinkState, was: seq<Byte>)
    requires Run(st, was).Some?
    ensures |Run(st, was).value.text| == |was|
    decreases |was|
  {
    hide Awaited;
    if |was| > 0 {
      var n := BlockLength(|was|);
      var r := Request(st, was[..n]);
      AwaitedSize(st.inbox, st.op, n);
      RunLength(r.value.st, was[n..]);
    }
  }

  lemma {:induction false} AwaitedSize(inbox: seq<Message>, op: Byte, size: nat)
    ensures var w := Awaited(inbox, op, size); w.got.Some? ==> |w.got.value| == size
    decreases |inbox|
  {
    if |inbox| > 0 && inbox[0].Quiet? { AwaitedSize(inbox[1..], op, size); }
  }

  // ----- whether and how a load goes through does not depend on what was there before ---------------

  /** The state after a load of the given length, if it goes through. */
  ghost function Advanced(firmwareSize: Word, st: LinkState, length: nat): Option<LinkState> {
    var r := LoadRun(firmwareSize, st, seq(length, _ => 0));
    if r.None? then None else Some(r.value.st)
  }

  lemma {:induction false} RunSame(st: LinkState, a: seq<Byte>, b: seq<Byte>)
    requires |a| == |b|
    ensures Run(st, a).Some? <==> Run(st, b).Some?
    ensures Run(st, a).Some? ==> Run(st, a).value.st == Run(st, b).value.st
    decreases |a|
  {
    hide Awaited;
    if |a| > 0 {
      var n := BlockLength(|a|);
      var r := Request(st, a[..n]);
      if r.Some? { RunSame(r.value.st, a[n..], b[n..]); }
    }
  }

  lemma AdvancedIs(firmwareSize: Word, st: LinkState, was: seq<Byte>)
    ensures LoadRun(firmwareSize, st, was).Some? <==> Advanced(firmwareSize, st, |was|).Some?
    ensures LoadRun(firmwareSize, st, was).Some? ==> LoadRun(firmwareSize, st, was).value.st == Advanced(firmwareSize, st, |was|).value
  {
    hide Run;
    RunSame(st, was, seq(|was|, _ => 0));
  }

  // ----- what was delivered ------------------------------------------------------------------------

  /** The bytes of the GET_FIRMWARE responses among the first n messages. */
  ghost function Delivered(inbox: seq<Message>, n: nat): seq<Byte>
    requires n <= |inbox|
  {
    if n == 0 then [] else Delivered(inbox, n - 1) + Brought(inbox[n - 1])
  }

  /** None of the first n messages is an AP_READY. */
  ghost predicate Undisturbed(inbox: seq<Message>, n: nat)
    requires n <= |inbox|
  {
    forall i :: 0 <= i < n ==> !inbox[i].ApReady?
  }

  /**
   * From messages r0 to messages r1 the link brought data: exactly the bytes delivered if no AP_READY came in between,
   * and more than was delivered if one did.
   */
  ghost predicate Took(r0: seq<Message>, r1: seq<Message>, data: seq<Byte>) {
    exists n: nat :: TookFirst(r0, r1, data, n)
  }

  ghost predicate TookFirst(r0: seq<Message>, r1: seq<Message>, data: seq<Byte>, n: nat) {
    n <= |r0| && r1 == r0[n..] && (Undisturbed(r0, n) ==> data == Delivered(r0, n)) &&
    (!Undisturbed(r0, n) ==> |Delivered(r0, n)| < |data|)
  }

  lemma TookNothing(r: seq<Message>)
    ensures Took(r, r, [])
  {
    assert r[0..] == r && Delivered(r, 0) == [];
    assert TookFirst(r, r, [], 0);
  }

  lemma {:induction false} DeliveredSplit(r: seq<Message>, m: nat, n: nat)
    requires m + n <= |r|
    ensures Delivered(r, m + n) == Delivered(r, m) + Delivered(r[m..], n)
  {
    if n > 0 {
      hide Delivered;
      var k := m + n - 1;
      DeliveredSplit(r, m, n - 1);
      assert r[m..][n - 1] == r[k];
      DeliveredNext(r, k);
      DeliveredNext(r[m..], n - 1);
      Regrouped(Delivered(r, m), Delivered(r[m..], n - 1), Brought(r[k]));
    }
  }

  /** The bytes of one message. */
  ghost function Brought(m: Message): seq<Byte> { if m.Firmware? then m.data else [] }

  lemma DeliveredNext(r: seq<Message>, k: nat)
    requires k < |r|
    ensures Delivered(r, k + 1) == Delivered(r, k) + Brought(r[k])
  {}

  lemma Regrouped(a: seq<Byte>, b: seq<Byte>, c: seq<Byte>)
    ensures a + b + c == a + (b + c)
  {}

  lemma UndisturbedSplit(r: seq<Message>, m: nat, n: nat)
    requires m + n <= |r|
    ensures Undisturbed(r, m + n) <==> Undisturbed(r, m) && Undisturbed(r[m..], n)
  {
    var t := r[m..];
    forall i | 0 <= i < n ensures t[i] == r[m + i] {}
    if Undisturbed(r, m) && Undisturbed(t, n) {
      forall i | 0 <= i < m + n ensures !r[i].ApReady? {
        if i >= m { assert t[i - m] == r[i]; }
      }
    }
  }

  lemma TookMore(r0: seq<Message>, r1: seq<Message>, r2: seq<Message>, a: seq<Byte>, b: seq<Byte>)
    requires Took(r0, r1, a) && Took(r1, r2, b)
    ensures Took(r0, r2, a + b)
  {
    hide Delivered;
    hide Undisturbed;
    var m: nat :| TookFirst(r0, r1, a, m);
    var n: nat :| TookFirst(r1, r2, b, n);
    DeliveredSplit(r0, m, n);
    UndisturbedSplit(r0, m, n);
    assert r2 == r0[m + n..];
    assert TookFirst(r0, r2, a + b, m + n);
  }

  /** A wait that counts as a success brought an answer, or was ended by AP_READY with nothing brought. */
  lemma {:induction false} AwaitedTook(inbox: seq<Message>, op: Byte, size: nat, was: seq<Byte>)
    requires |was| == size > 0
    requires var w := Awaited(inbox, op, size); w.rc == 0 && w.op == OP_GET_FIRMWARE_RESPONSE
    ensures var w := Awaited(inbox, op, size); Took(inbox, w.rest, if w.got.Some? then w.got.value else was)
    decreases |inbox|
  {
    var w := Awaited(inbox, op, size);
    var data := if w.got.Some? then w.got.value else was;
    if inbox[0].Quiet? {
      AwaitedTook(inbox[1..], op, size, was);
      hide Took;
      TookOne(inbox, []);
      TookMore(inbox, inbox[1..], w.rest, [], data);
      assert [] + data == data;
    } else {
      TookOne(inbox, data);
    }
  }

  lemma TookOne(inbox: seq<Message>, data: seq<Byte>)
    requires |inbox| > 0 && if inbox[0].ApReady? then |data| > 0 else data == Brought(inbox[0])
    ensures Took(inbox, inbox[1..], data)
  {
    OneMessage(inbox);
    assert TookFirst(inbox, inbox[1..], data, 1);
  }

  lemma OneMessage(inbox: seq<Message>)
    requires |inbox| > 0
    ensures Delivered(inbox, 1) == if inbox[0].Firmware? then inbox[0].data else []
    ensures Undisturbed(inbox, 1) <==> !inbox[0].ApReady?
  {
    assert Delivered(inbox, 0) == [];
  }

  lemma {:induction false} RunTook(st: LinkState, was: seq<Byte>)
    requires Run(st, was).Some?
    ensures Took(st.inbox, Run(st, was).value.st.inbox, Run(st, was).value.text)
    decreases |was|
  {
    hide Awaited;
    hide Took;
    if |was| == 0 {
      TookNothing(st.inbox);
    } else {
      var n := BlockLength(|was|);
      var r := Request(st, was[..n]);
      AwaitedTook(st.inbox, st.op, n, was[..n]);
      RunTook(r.value.st, was[n..]);
      var t := Run(r.value.st, was[n..]).value;
      TookMore(st.inbox, r.value.st.inbox, t.st.inbox, r.value.text, t.text);
    }
  }

  /** After an earlier block, AP_READY ends the wait for a block with nothing written; the late answer lands one block on. */
  lemma LateAnswerMisplaced(st: LinkState, was: seq<Byte>, answer: seq<Byte>)
    requires st.op == OP_GET_FIRMWARE_RESPONSE && st.sends == [] && |was| == 2 * GB_MAX_PAYLOAD_SIZE
    requires |answer| == GB_MAX_PAYLOAD_SIZE && st.inbox == [ApReady, Firmware(true, answer)]
    ensures Run(st, was).Some? && Run(st, was).value.text == was[..GB_MAX_PAYLOAD_SIZE] + answer
    ensures Delivered(st.inbox, 2) == answer
  {
    var n := GB_MAX_PAYLOAD_SIZE;
    var tail := was[n..];
    var r := Request(st, was[..n]);
    assert st.inbox[1..] == [Firmware(true, answer)];
    assert r.value.text == was[..n] && r.value.st.inbox == [Firmware(true, answer)];
    var q := Request(r.value.st, tail[..n]);
    assert q.value.text == answer;
    assert tail[n..] == [];
    assert Run(q.value.st, []) == Some(Loaded(q.value.st, []));
    assert Run(r.value.st, tail) == Prepend(answer, Run(q.value.st, tail[n..]));
    assert answer + [] == answer;
    assert Delivered(st.inbox, 0) == [];
    assert Delivered(st.inbox, 1) == [];
  }

  // ----- the code -----------------------------------------------------------------------------------

  class Link {
    var offset: Word
    var firmwareSize: Word

    /** The static responded_op: the type of the last response, of whatever request. */
    var respondedOp: Byte
    const sh: Context

    /** Whether each send to come succeeds (all do after the last entry), and the messages to come. */
    var sends: seq<bool>
    var inbox: seq<Message>

    ghost predicate Valid()
      reads this, sh, sh.h, sh.w
    {
      sh.Valid()
    }

    ghost function State(): LinkState
      reads this
    {
      LinkState(offset, respondedOp, sends, inbox)
    }

    constructor (size: Word, op: Byte, sends: seq<bool>, inbox: seq<Message>)
      ensures Valid() && fresh(sh) && fresh(sh.h) && fresh(sh.w) && firmwareSize == size && State() == LinkState(0, op, sends, inbox)
    {
      hide Represents;
      this.offset, this.firmwareSize, this.respondedOp, this.sends, this.inbox := 0, size, op, sends, inbox;
      sh := new Context();
    }

    /** greybus_loop and the handlers of the boot protocol; a wait that no message ends counts as failed. */
    method AwaitMessage(dest: array<Byte>, at: nat, size: nat) returns (rc: int)
      requires at + size <= dest.Length
      modifies this`inbox, this`respondedOp, dest
      ensures var w := Awaited(old(inbox), old(respondedOp), size);
        rc == w.rc && respondedOp == w.op && inbox == w.rest &&
        dest[..] == if w.got.Some? then old(dest[..at]) + w.got.value + old(dest[at + size..]) else old(dest[..])
    {
      ghost var w := Awaited(inbox, respondedOp, size);
      while |inbox| > 0
        invariant Awaited(inbox, respondedOp, size) == w && respondedOp == old(respondedOp) && dest[..] == old(dest[..])
        decreases |inbox|
      {
        var m := inbox[0];
        inbox := inbox[1..];
        match m
        case Quiet => {}
        case Refused => return -1;
        case ApReady => return 0;
        case SizeResponse(ok) => {
          respondedOp := OP_FIRMWARE_SIZE_RESPONSE;
          return if ok then 0 else -1;
        }
        case ReadyResponse(ok) => {
          respondedOp := OP_READY_TO_BOOT_RESPONSE;
          return if ok then 0 else -1;
        }
        case Firmware(ok, data) => {
          respondedOp := OP_GET_FIRMWARE_RESPONSE;
          if !ok || |data| != size { return -1; }
          Receive(dest, at, data);
          return 0;
        }
      }
      return -1;
    }

    /** gbboot_get_firmware: prevLen bytes from prevAt on are hashed once the request is out. */
    method GetFirmware(size: nat, dest: array<Byte>, at: nat, prevAt: nat, prevLen: nat) returns (rc: int)
      requires Valid() && at + size <= dest.Length && prevAt + prevLen <= at
      modifies this`inbox, this`respondedOp, this`sends, sh, sh.h, sh.w, dest
      ensures Valid()
      ensures rc == 0 <==> Request(old(State()), old(dest[at..at + size])).Some?
      ensures rc == 0 ==> dest[..] == old(dest[..at]) + Request(old(State()), old(dest[at..at + size])).value.text + old(dest[at + size..])
      ensures rc == 0 ==> State() == Request(old(State()), old(dest[at..at + size])).value.st.(offset := offset)
      ensures forall k :: 0 <= k < dest.Length && (k < at || at + size <= k) ==> dest[k] == old(dest[k])
      ensures sh.fed == old(sh.fed) + old(dest[prevAt..prevAt + prevLen]) || (rc != 0 && sh.fed == old(sh.fed))
    {
      hide Represents;
      hide Awaited;
      ghost var d, prev := dest[..], dest[prevAt..prevAt + prevLen];
      assert dest[at..at + size] == d[at..at + size] && dest[..at] == d[..at] && dest[at + size..] == d[at + size..];
      AwaitedSize(inbox, respondedOp, size);
      if |sends| > 0 {
        var sent := sends[0];
        sends := sends[1..];
        if !sent { return GB_BOOT_ERR_INVALID; }
      }
      if prevLen > 0 {
        Update(sh, dest[prevAt..prevAt + prevLen]);
      }
      assert sh.fed == old(sh.fed) + prev;
      rc := AwaitMessage(dest, at, size);
      if rc != 0 { return; }
      if respondedOp != OP_GET_FIRMWARE_RESPONSE { return -ENODEV; }
      Whole(d, at, size);
    }

    /** The loop of data_load_greybus_load: with hash set, all but the last block is hashed on the way. */
    method LoadBlocks(dest: array<Byte>, at: nat, length0: Word, hash: bool) returns (rc: int, prevAt: nat, prevLen: nat)
      requires Valid() && at + length0 <= dest.Length
      modifies this`inbox, this`respondedOp, this`sends, this`offset, sh, sh.h, sh.w, dest
      ensures Valid()
      ensures rc == 0 <==> Run(old(State()), old(dest[at..at + length0])).Some?
      ensures rc == 0 ==> Run(old(State()), old(dest[at..at + length0])) == Some(Loaded(State(), dest[at..at + length0]))
      ensures rc == 0 && hash ==> at <= prevAt && prevAt + prevLen == at + length0 && sh.fed == old(sh.fed) + dest[at..prevAt]
      ensures !hash ==> sh.fed == old(sh.fed)
      ensures forall k :: 0 <= k < dest.Length && (k < at || at + length0 <= k) ==> dest[k] == old(dest[k])
    {
      hide *;
      var length: int := length0;
      var to: nat := at;
      prevAt, prevLen := at, 0;
      ghost var fed0, st0, d0, end := sh.fed, State(), dest[..], at + length0;
      assert d0[at..end] == dest[at..end];
      ProgressBegins(st0, fed0, d0, at, end, hash);
      while length > 0
        invariant 0 <= length <= length0 && to == end - length && prevAt + prevLen <= to && Valid()
        invariant !hash ==> sh.fed == fed0
        invariant Progress(st0, State(), fed0, sh.fed, d0, dest[..], at, to, end, prevAt, prevLen, hash)
        invariant forall k :: 0 <= k < dest.Length && (k < at || to <= k) ==> dest[k] == d0[k]
        decreases length
      {
        var blkLen := BlockLength(length);
        rc := LoadBlock(dest, at, to, blkLen, prevAt, prevLen, hash, st0, fed0, d0, end);
        if rc != 0 {
          return;
        }
        if hash {
          prevAt, prevLen := to, blkLen;
        }
        to := to + blkLen;
        length := length - blkLen;
      }
      rc := 0;
      ProgressEnds(st0, State(), fed0, sh.fed, d0, dest[..], at, end, prevAt, prevLen, hash);
      assert dest[at..end] == dest[..][at..end] && dest[at..prevAt] == dest[..][at..prevAt];
    }

    /** One pass of the loop. */
    method LoadBlock(dest: array<Byte>, ghost at: nat, to: nat, blkLen: nat, prevAt: nat, prevLen: nat, ghost hash: bool,
                     ghost st0: LinkState, ghost fed0: seq<Byte>, ghost d0: seq<Byte>, ghost end: nat) returns (rc: int)
      requires Valid() && to < end <= dest.Length == |d0| && blkLen == BlockLength(end - to) && prevAt + prevLen <= to
      requires Progress(st0, State(), fed0, sh.fed, d0, dest[..], at, to, end, prevAt, prevLen, hash)
      requires forall k :: 0 <= k < dest.Length && (k < at || to <= k) ==> dest[k] == d0[k]
      modifies this`inbox, this`respondedOp, this`sends, this`offset, sh, sh.h, sh.w, dest
      ensures Valid() && (!hash ==> sh.fed == fed0)
      ensures rc != 0 ==> at <= end && Run(st0, d0[at..end]).None?
      ensures rc == 0 ==> Progress(st0, State(), fed0, sh.fed, d0, dest[..], at, to + blkLen, end,
                                   if hash then to else prevAt, if hash then blkLen else prevLen, hash)
      ensures forall k :: 0 <= k < dest.Length && (k < at || to + blkLen <= k) ==> dest[k] == d0[k]
    {
      hide Represents;
      hide Run;
      hide Request;
      hide BlockLength;
      hide Wrap;
      hide Prepend;
      hide Progress;
      ghost var st, f, d := State(), sh.fed, dest[..];
      ProgressParts(st0, st, fed0, f, d0, d, at, to, end, prevAt, prevLen, hash);
      assert dest[prevAt..prevAt + prevLen] == d[prevAt..prevAt + prevLen] && dest[to..to + blkLen] == d0[to..to + blkLen];
      assert dest[..to] == d[..to] && dest[to + blkLen..] == d[to + blkLen..];
      rc := GetFirmware(blkLen, dest, to, prevAt, prevLen);
      if rc != 0 {
        ProgressFails(st0, st, fed0, f, d0, d, at, to, end, prevAt, prevLen, hash, sh.fed);
        return;
      }
      offset := Wrap(offset + blkLen);
      RequestOffset(st, d0[to..to + blkLen]);
      ProgressStep(st0, st, fed0, f, d0, d, at, to, end, prevAt, prevLen, hash, State(), sh.fed, dest[..]);
    }

    /**
     * data_load_greybus_load: goes through exactly when LoadRun does, with the state and the contents that gives; the hash
     * has then been fed exactly the contents of the destination, once and in order, or nothing at all.
     */
    method Load(dest: array<Byte>, at: nat, length0: Word, hash: bool) returns (rc: int)
      requires Valid() && at + length0 <= dest.Length
      modifies this`inbox, this`respondedOp, this`sends, this`offset, sh, sh.h, sh.w, dest
      ensures Valid()
      ensures rc == 0 <==> LoadRun(firmwareSize, old(State()), old(dest[at..at + length0])).Some?
      ensures rc == 0 ==> LoadRun(firmwareSize, old(State()), old(dest[at..at + length0])) == Some(Loaded(State(), dest[at..at + length0]))
      ensures rc == 0 <==> Advanced(firmwareSize, old(State()), length0).Some?
      ensures rc == 0 ==> Advanced(firmwareSize, old(State()), length0) == Some(State())
      ensures rc == 0 ==> Took(old(inbox), inbox, dest[at..at + length0])
      ensures rc == 0 && hash ==> sh.fed == old(sh.fed) + dest[at..at + length0]
      ensures !hash ==> sh.fed == old(sh.fed)
      ensures forall k :: 0 <= k < dest.Length && (k < at || at + length0 <= k) ==> dest[k] == old(dest[k])
    {
      hide Represents;
      hide Run;
      hide Took;
      hide Advanced;
      ghost var st0, was := State(), dest[at..at + length0];
      AdvancedIs(firmwareSize, st0, was);
      if Wrap(offset + length0) > firmwareSize {
        return GB_BOOT_ERR_INVALID;
      }
      var prevAt, prevLen;
      rc, prevAt, prevLen := LoadBlocks(dest, at, length0, hash);
      if rc == 0 { RunTook(st0, was); }
      if rc == 0 && hash {
        ghost var got := dest[at..at + length0];
        Update(sh, dest[prevAt..prevAt + prevLen]);
        assert dest[at..prevAt] + dest[prevAt..prevAt + prevLen] == got;
      }
    }
  }

  /**
   * Part of the way through a load from st0 into d0[at..end]: the rest of the run is the run of the rest, and all of
   * d[at..to] is hashed but the last block (when hashing).
   */
  ghost predicate Progress(st0: LinkState, st: LinkState, f0: seq<Byte>, fed: seq<Byte>, d0: seq<Byte>, d: seq<Byte>,
                           at: nat, to: nat, end: nat, prevAt: nat, prevLen: nat, hash: bool)
  {
    |d| == |d0| && at <= to <= end <= |d| && Run(st0, d0[at..end]) == Prepend(d[at..to], Run(st, d0[to..end])) &&
    at <= prevAt && prevAt + prevLen == (if hash then to else at) && fed == f0 + d[at..prevAt]
  }

  lemma ProgressBegins(st0: LinkState, f0: seq<Byte>, d0: seq<Byte>, at: nat, end: nat, hash: bool)
    requires at <= end <= |d0|
    ensures Progress(st0, st0, f0, f0, d0, d0, at, at, end, at, 0, hash)
  {
    hide Run;
    var r := Run(st0, d0[at..end]);
    assert r.Some? ==> [] + r.value.text == r.value.text;
    assert d0[at..at] == [];
  }

  lemma ProgressFails(st0: LinkState, st: LinkState, f0: seq<Byte>, fed: seq<Byte>, d0: seq<Byte>, d: seq<Byte>,
                      at: nat, to: nat, end: nat, prevAt: nat, prevLen: nat, hash: bool, fed': seq<Byte>)
    requires Progress(st0, st, f0, fed, d0, d, at, to, end, prevAt, prevLen, hash) && to < end
    requires Request(st, d0[to..to + BlockLength(end - to)]).None?
    requires fed' == fed || fed' == fed + d[prevAt..prevAt + prevLen]
    ensures Run(st0, d0[at..end]).None? && (!hash ==> fed' == f0)
  {
    hide Request;
    var w := d0[to..end];
    assert w[..BlockLength(|w|)] == d0[to..to + BlockLength(end - to)];
  }

  lemma ProgressStep(st0: LinkState, st: LinkState, f0: seq<Byte>, fed: seq<Byte>, d0: seq<Byte>, d: seq<Byte>,
                     at: nat, to: nat, end: nat, prevAt: nat, prevLen: nat, hash: bool,
                     st': LinkState, fed': seq<Byte>, d': seq<Byte>)
    requires Progress(st0, st, f0, fed, d0, d, at, to, end, prevAt, prevLen, hash) && to < end
    requires var n := BlockLength(end - to);
      var r := Request(st, d0[to..to + n]);
      r.Some? && |r.value.text| == n && st' == r.value.st && d' == d[..to] + r.value.text + d[to + n..]
    requires fed' == fed + d[prevAt..prevAt + prevLen]
    ensures var n := BlockLength(end - to);
      Progress(st0, st', f0, fed', d0, d', at, to + n, end, if hash then to else prevAt, if hash then n else prevLen, hash)
    ensures !hash ==> fed' == f0
  {
    hide *;
    ProgressParts(st0, st, f0, fed, d0, d, at, to, end, prevAt, prevLen, hash);
    var n := BlockLength(end - to);
    var t := Request(st, d0[to..to + n]).value.text;
    Spliced(d, t, d', at, to, n);
    UnchangedBefore(d, d', at, prevAt, to);
    RunContinues(st0, st, d0, d[at..to], d'[at..to + n], t, at, to, end, n, st');
    HashContinues(f0, fed, fed', d, at, prevAt, prevLen, to, hash);
    ProgressFrom(st0, st', f0, fed', d0, d', at, to + n, end, if hash then to else prevAt, if hash then n else prevLen, hash);
  }

  /** Progress, taken apart. */
  lemma ProgressParts(st0: LinkState, st: LinkState, f0: seq<Byte>, fed: seq<Byte>, d0: seq<Byte>, d: seq<Byte>,
                      at: nat, to: nat, end: nat, prevAt: nat, prevLen: nat, hash: bool)
    requires Progress(st0, st, f0, fed, d0, d, at, to, end, prevAt, prevLen, hash)
    ensures |d| == |d0| && at <= to <= end <= |d| && Run(st0, d0[at..end]) == Prepend(d[at..to], Run(st, d0[to..end]))
    ensures at <= prevAt <= to && prevAt + prevLen == (if hash then to else at) && fed == f0 + d[at..prevAt]
  {
    hide Run;
    hide Prepend;
  }

  /** And put together. */
  lemma ProgressFrom(st0: LinkState, st: LinkState, f0: seq<Byte>, fed: seq<Byte>, d0: seq<Byte>, d: seq<Byte>,
                     at: nat, to: nat, end: nat, prevAt: nat, prevLen: nat, hash: bool)
    requires |d| == |d0| && at <= to <= end <= |d| && Run(st0, d0[at..end]) == Prepend(d[at..to], Run(st, d0[to..end]))
    requires at <= prevAt <= to && prevAt + prevLen == (if hash then to else at) && fed == f0 + d[at..prevAt]
    ensures Progress(st0, st, f0, fed, d0, d, at, to, end, prevAt, prevLen, hash)
  {
    hide Run;
    hide Prepend;
  }

  lemma RunContinues(st0: LinkState, st: LinkState, d0: seq<Byte>, a: seq<Byte>, a': seq<Byte>, t: seq<Byte>,
                     at: nat, to: nat, end: nat, n: nat, st': LinkState)
    requires at <= to < end <= |d0| && n == BlockLength(end - to) && Run(st0, d0[at..end]) == Prepend(a, Run(st, d0[to..end]))
    requires Request(st, d0[to..to + n]) == Some(Loaded(st', t)) && a' == a + t
    ensures Run(st0, d0[at..end]) == Prepend(a', Run(st', d0[to + n..end]))
  {
    hide Request;
    hide Run;
    hide Prepend;
    hide BlockLength;
    var w := d0[to..end];
    assert w[..n] == d0[to..to + n] && w[n..] == d0[to + n..end];
    RunUnfold(st, w);
    PrependTwice(a, t, Run(st', w[n..]));
  }

  lemma HashContinues(f0: seq<Byte>, fed: seq<Byte>, fed': seq<Byte>, d: seq<Byte>, at: nat, prevAt: nat, prevLen: nat, to: nat, hash: bool)
    requires at <= prevAt && prevAt + prevLen == (if hash then to else at) && to <= |d| && at <= to
    requires fed == f0 + d[at..prevAt] && fed' == fed + d[prevAt..prevAt + prevLen]
    ensures fed' == f0 + d[at..if hash then to else prevAt] && (!hash ==> fed' == f0)
  {
    Regrouped(f0, d[at..prevAt], d[prevAt..prevAt + prevLen]);
    SlicesJoin(d, at, prevAt, prevAt + prevLen);
  }

  lemma Spliced(d: seq<Byte>, t: seq<Byte>, d': seq<Byte>, at: nat, to: nat, n: nat)
    requires at <= to && to + n <= |d| && |t| == n && d' == d[..to] + t + d[to + n..]
    ensures |d'| == |d| && d'[at..to + n] == d[at..to] + t && forall k :: 0 <= k < to ==> d'[k] == d[k]
  {}

  lemma Whole(d: seq<Byte>, at: nat, n: nat)
    requires at + n <= |d|
    ensures d[..at] + d[at..at + n] + d[at + n..] == d
  {}

  lemma SlicesJoin(d: seq<Byte>, a: nat, b: nat, c: nat)
    requires a <= b <= c <= |d|
    ensures d[a..b] + d[b..c] == d[a..c]
  {}

  lemma UnchangedBefore(d: seq<Byte>, d': seq<Byte>, at: nat, p: nat, to: nat)
    requires at <= p <= to <= |d| == |d'| && forall k :: 0 <= k < to ==> d'[k] == d[k]
    ensures d'[at..p] == d[at..p] && d'[at..to] == d[at..to]
  {}

  lemma ProgressEnds(st0: LinkState, st: LinkState, f0: seq<Byte>, fed: seq<Byte>, d0: seq<Byte>, d: seq<Byte>,
                     at: nat, end: nat, prevAt: nat, prevLen: nat, hash: bool)
    requires Progress(st0, st, f0, fed, d0, d, at, end, end, prevAt, prevLen, hash)
    ensures Run(st0, d0[at..end]) == Some(Loaded(st, d[at..end]))
    ensures at <= prevAt && prevAt + prevLen == (if hash then end else at) && fed == f0 + d[at..prevAt]
  {
    assert d0[end..end] == [];
    assert d[at..end] + [] == d[at..end];
    assert Run(st, []) == Some(Loaded(st, []));
  }

  lemma RunUnfold(st: LinkState, was: seq<Byte>)
    requires |was| > 0
    ensures var n := BlockLength(|was|);
      var r := Request(st, was[..n]);
      Run(st, was) == if r.None? then None else Prepend(r.value.text, Run(r.value.st, was[n..]))
  {
    hide Request;
  }

  lemma PrependTwice(a: seq<Byte>, b: seq<Byte>, r: Option<Loaded>)
    ensures Prepend(a, Prepend(b, r)) == Prepend(a + b, r)
  {
    if r.Some? { assert a + (b + r.value.text) == a + b + r.value.text; }
  }

  lemma RequestOffset(st: LinkState, was: seq<Byte>)
    requires Request(st, was).Some?
    ensures Request(st, was).value.st.offset == Wrap(st.offset + |was|) && |Request(st, was).value.text| == |was|
  {
    hide Awaited;
    AwaitedSize(st.inbox, st.op, |was|);
  }

  /** gbboot_get_firmware_response's copy. */
  method Receive(dest: array<Byte>, at: nat, data: seq<Byte>)
    requires at + |data| <= dest.Length
    modifies dest
    ensures dest[..] == old(dest[..at]) + data + old(dest[at + |data|..])
  {
    for i := 0 to |data|
      invariant forall k :: 0 <= k < i ==> dest[at + k] == data[k]
      invariant forall k :: 0 <= k < dest.Length && (k < at || at + i <= k) ==> dest[k] == old(dest[k])
      modifies dest
    {
      dest[at + i] := data[i];
    }
  }
}
