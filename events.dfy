/**
 * The event decoder: the Linux `struct inotify_event` records that one `read`
 * leaves back to back in a byte buffer, the event built from each record, and
 * the loop that walks the buffer record by record.
 *
 * A record is a 16-byte header of four little-endian 32-bit words
 * (`int wd`, `uint32_t mask`, `uint32_t cookie`, `uint32_t len`) followed by
 * `len` bytes of NUL-padded file name.
 */
module Events {
  import opened Wrappers
  import opened Flags

  type byte = b: int | 0 <= b < 256

  /** `sizeof(struct inotify_event)`. */
  const HeaderSize: nat := 16

  const Word: nat := 0x1_0000_0000

  /** `NAME_MAX` on Linux. */
  const NameMax: nat := 255

  /** The capacity of the buffer `read_events` reads into: room for 1024 records with the longest names. */
  const EventBufLen: nat := 1024 * (HeaderSize + NameMax + 1)

  /** The unsigned little-endian 32-bit word at `off`. */
  function U32At(buf: seq<byte>, off: nat): (v: nat)
    requires off + 4 <= |buf|
    ensures v < Word
  {
    var b0: int, b1: int, b2: int, b3: int := buf[off], buf[off + 1], buf[off + 2], buf[off + 3];
    b0 + 0x100 * b1 + 0x1_0000 * b2 + 0x100_0000 * b3
  }

  /** A 32-bit word read as a two's complement `int`, as the `wd` field is. */
  function Int32Of(v: nat): (i: int)
    requires v < Word
    ensures -0x8000_0000 <= i < 0x8000_0000
    ensures (i - v) % Word == 0
  {
    if v < 0x8000_0000 then v else v - Word
  }

  /** A record header as the kernel wrote it, and the name field that follows it. */
  datatype RawEvent = RawEvent(wd: int, mask: nat, cookie: nat, len: nat, name: seq<byte>)

  /** The `len` field of the header at `off`. */
  function LenAt(buf: seq<byte>, off: nat): nat
    requires off + HeaderSize <= |buf|
  {
    U32At(buf, off + 12)
  }

  /** Header size plus name length: how far the loop advances past the record at `off`. */
  function RecordSize(buf: seq<byte>, off: nat): (size: nat)
    requires off + HeaderSize <= |buf|
    ensures size >= HeaderSize
  {
    HeaderSize + LenAt(buf, off)
  }

  /**
   * A whole record starts at `off` and ends by `n`, and a non-empty name field
   * holds the NUL the kernel pads it with.
   */
  predicate RecordFits(buf: seq<byte>, off: nat, n: nat)
    requires n <= |buf|
    ensures RecordFits(buf, off, n) ==> off < n
  {
    off + HeaderSize <= n
    && off + RecordSize(buf, off) <= n
    && (LenAt(buf, off) > 0 ==> 0 in buf[off + HeaderSize..off + RecordSize(buf, off)])
  }

  /** The record at `off`, field by field. */
  function RawAt(buf: seq<byte>, off: nat, n: nat): (raw: RawEvent)
    requires n <= |buf| && RecordFits(buf, off, n)
    ensures raw.len == LenAt(buf, off) && |raw.name| == raw.len
    ensures raw.mask < Word && raw.cookie < Word
  {
    RawEvent(
      Int32Of(U32At(buf, off)),
      U32At(buf, off + 4),
      U32At(buf, off + 8),
      LenAt(buf, off),
      buf[off + HeaderSize..off + RecordSize(buf, off)])
  }

  /** From `off`, whole records follow one another and the last one ends exactly at `n`. */
  predicate Framed(buf: seq<byte>, off: nat, n: nat)
    requires off <= n <= |buf|
    ensures Framed(buf, off, n) ==> off == n || off + HeaderSize <= n
    decreases n - off
  {
    off == n || (RecordFits(buf, off, n) && Framed(buf, off + RecordSize(buf, off), n))
  }

  /** The bytes of a name field before its first NUL: what `mrb_str_new_cstr` copies. */
  function CString(field: seq<byte>): (s: seq<byte>)
    ensures s <= field && 0 !in s
    ensures |s| < |field| ==> field[|s|] == 0
  {
    if field == [] || field[0] == 0 then [] else [field[0]] + CString(field[1..])
  }

  /**
   * A decoded event: `watchedPath` is `nil` when the record is decoded and is
   * set by the notifier when it dispatches the event.
   */
  datatype Event = Event(
    wd: int,
    cookie: nat,
    name: Option<seq<byte>>,
    events: seq<Flag>,
    watchedPath: Option<string>)

  /** The event `mrb_inotify_event_from_struct` builds from one record. */
  function EventFromStruct(raw: RawEvent): (e: Event)
    ensures e.wd == raw.wd && e.cookie == raw.cookie
    ensures e.name.None? <==> raw.len == 0
    ensures e.watchedPath.None?
  {
    Event(raw.wd, raw.cookie, if raw.len > 0 then Some(CString(raw.name)) else None,
      MaskToFlags(MaskOfWord(raw.mask)), None)
  }

  /** The event's flags are the decode-table flags whose bits the record's mask word meets. */
  lemma EventFlags(raw: RawEvent, f: Flag)
    ensures f in EventFromStruct(raw).events <==> f in DecodeFlags && Meets(MaskOfWord(raw.mask), Bits(f))
  {
    DecodeMember(MaskOfWord(raw.mask), f);
  }

  /** A present name is the part of the name field before its first NUL. */
  lemma EventName(buf: seq<byte>, off: nat, n: nat)
    requires n <= |buf| && RecordFits(buf, off, n) && LenAt(buf, off) > 0
    ensures EventFromStruct(RawAt(buf, off, n)).name.Some?
    ensures var name := EventFromStruct(RawAt(buf, off, n)).name.value;
      var field := buf[off + HeaderSize..off + RecordSize(buf, off)];
      name < field && 0 !in name && field[|name|] == 0
  {
    var field := buf[off + HeaderSize..off + RecordSize(buf, off)];
    var name := CString(field);
    assert |name| < |field| by {
      if |name| == |field| {
        assert false;
      }
    }
  }

  /** The offsets of the records of a framed stretch of the buffer, in buffer order. */
  function Starts(buf: seq<byte>, off: nat, n: nat): (ss: seq<nat>)
    requires off <= n <= |buf| && Framed(buf, off, n)
    ensures ss == [] <==> off == n
    ensures forall k :: 0 <= k < |ss| ==> off <= ss[k] < n && RecordFits(buf, ss[k], n)
    decreases n - off
  {
    if off == n then [] else [off] + Starts(buf, off + RecordSize(buf, off), n)
  }

  lemma StartsStep(buf: seq<byte>, off: nat, n: nat)
    requires off < n <= |buf| && Framed(buf, off, n)
    ensures RecordFits(buf, off, n) && Framed(buf, off + RecordSize(buf, off), n)
    ensures Starts(buf, off, n) == [off] + Starts(buf, off + RecordSize(buf, off), n)
  {
  }

  /** All of `ss` are offsets of whole records ending by `n`. */
  predicate AllFit(buf: seq<byte>, ss: seq<nat>, n: nat)
    requires n <= |buf|
  {
    forall k :: 0 <= k < |ss| ==> RecordFits(buf, ss[k], n)
  }

  /** The events of the records at the offsets `ss`: one per record, in the same order. */
  function EventsAt(buf: seq<byte>, ss: seq<nat>, n: nat): seq<Event>
    requires n <= |buf| && AllFit(buf, ss, n)
  {
    seq(|ss|, k requires 0 <= k < |ss| => EventFromStruct(RawAt(buf, ss[k], n)))
  }

  /** The events the framing loop yields from `nread` valid bytes. */
  function DecodedEvents(buf: seq<byte>, nread: nat): (events: seq<Event>)
    requires nread <= |buf| && Framed(buf, 0, nread)
    ensures |events| == |Starts(buf, 0, nread)|
    ensures nread == 0 ==> events == []
    ensures forall k :: 0 <= k < |events| ==> events[k].watchedPath.None?
  {
    EventsAt(buf, Starts(buf, 0, nread), nread)
  }

  lemma EventsAtSnoc(buf: seq<byte>, ss: seq<nat>, s: nat, n: nat)
    requires n <= |buf| && AllFit(buf, ss, n) && RecordFits(buf, s, n)
    ensures AllFit(buf, ss + [s], n)
    ensures EventsAt(buf, ss + [s], n) == EventsAt(buf, ss, n) + [EventFromStruct(RawAt(buf, s, n))]
  {
    assert forall k :: 0 <= k < |ss| ==> (ss + [s])[k] == ss[k];
  }

  lemma Concat<T>(a: seq<T>, b: seq<T>, c: seq<T>)
    ensures a + (b + c) == (a + b) + c
  {
  }

  /** Total size of the records at the offsets `ss`: for each, the header size plus its name length. */
  function SpanOf(buf: seq<byte>, ss: seq<nat>): nat
    requires forall k :: 0 <= k < |ss| ==> ss[k] + HeaderSize <= |buf|
  {
    if ss == [] then 0 else SpanOf(buf, ss[..|ss| - 1]) + RecordSize(buf, ss[|ss| - 1])
  }

  lemma SpanOfCons(buf: seq<byte>, s: nat, ss: seq<nat>)
    requires s + HeaderSize <= |buf|
    requires forall k :: 0 <= k < |ss| ==> ss[k] + HeaderSize <= |buf|
    ensures forall k :: 0 <= k < |[s] + ss| ==> ([s] + ss)[k] + HeaderSize <= |buf|
    ensures SpanOf(buf, [s] + ss) == RecordSize(buf, s) + SpanOf(buf, ss)
    decreases |ss|
  {
    if ss != [] {
      assert ([s] + ss)[..|ss|] == [s] + ss[..|ss| - 1];
      SpanOfCons(buf, s, ss[..|ss| - 1]);
    }
  }

  /**
   * Record `k` is parsed at `off` plus the sizes of the records before it:
   * the sum over the earlier records of header size plus name length.
   */
  lemma {:induction false} RecordOffsets(buf: seq<byte>, off: nat, n: nat, k: nat)
    requires off <= n <= |buf| && Framed(buf, off, n)
    requires k < |Starts(buf, off, n)|
    ensures Starts(buf, off, n)[k] == off + SpanOf(buf, Starts(buf, off, n)[..k])
    decreases n - off
  {
    var ss := Starts(buf, off, n);
    StartsStep(buf, off, n);
    var next := off + RecordSize(buf, off);
    var tail := Starts(buf, next, n);
    if k == 0 {
      assert ss[..0] == [];
    } else {
      RecordOffsets(buf, next, n, k - 1);
      assert ss[..k] == [off] + tail[..k - 1];
      SpanOfCons(buf, off, tail[..k - 1]);
    }
  }

  /**
   * Event `k` of a read is the event of the record at offset 0 plus the sizes
   * of the `k` records before it.
   */
  lemma DecodedEventAt(buf: seq<byte>, nread: nat, k: nat)
    requires nread <= |buf| && Framed(buf, 0, nread) && k < |Starts(buf, 0, nread)|
    ensures |DecodedEvents(buf, nread)| == |Starts(buf, 0, nread)|
    ensures var at := SpanOf(buf, Starts(buf, 0, nread)[..k]);
      RecordFits(buf, at, nread) && DecodedEvents(buf, nread)[k] == EventFromStruct(RawAt(buf, at, nread))
  {
    RecordOffsets(buf, 0, nread, k);
  }

  /** The records together cover the framed stretch exactly: the loop ends at `n`, not past it. */
  lemma {:induction false} RecordsSpan(buf: seq<byte>, off: nat, n: nat)
    requires off <= n <= |buf| && Framed(buf, off, n)
    ensures off + SpanOf(buf, Starts(buf, off, n)) == n
    decreases n - off
  {
    if off < n {
      StartsStep(buf, off, n);
      var next := off + RecordSize(buf, off);
      RecordsSpan(buf, next, n);
      SpanOfCons(buf, off, Starts(buf, next, n));
    }
  }

  /**
   * The framing loop of `read_events`: start at offset 0, yield the event of
   * the record at the offset, advance by header size plus name length, and
   * stop once the offset reaches `nread`.
   */
  method ParseBuffer(buf: seq<byte>, nread: nat) returns (events: seq<Event>)
    requires nread <= |buf| && Framed(buf, 0, nread)
    ensures events == DecodedEvents(buf, nread)
    ensures nread == 0 ==> events == []
  {
    events := [];
    var i: nat := 0;
    ghost var done: seq<nat> := [];
    while i < nread
      invariant i <= nread && Framed(buf, i, nread)
      invariant done + Starts(buf, i, nread) == Starts(buf, 0, nread)
      invariant AllFit(buf, done, nread)
      invariant events == EventsAt(buf, done, nread)
      decreases nread - i
    {
      StartsStep(buf, i, nread);
      var next := i + RecordSize(buf, i);
      ghost var rest := Starts(buf, next, nread);
      EventsAtSnoc(buf, done, i, nread);
      Concat(done, [i], rest);
      events := events + [EventFromStruct(RawAt(buf, i, nread))];
      done := done + [i];
      i := next;
    }
  }
}
