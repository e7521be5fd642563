/**
 * The flag codec of the inotify extension: symbolic flag names to a 32-bit
 * inotify mask (the encoder used when registering a watch) and a mask back to
 * the list of names (the decoder used for every event read). Bit values are
 * those of <sys/inotify.h> on Linux.
 */
module Flags {
  import opened Wrappers

  /** The 24 flag names either table knows. */
  datatype Flag =
    | Access | Attrib | CloseWrite | CloseNowrite | Close | Modify | Open
    | Create | Delete | DeleteSelf | MovedFrom | MovedTo | Move | MoveSelf
    | AllEvents
    | Oneshot | Onlydir | DontFollow | ExclUnlink | MaskAdd
    | Ignored | Isdir | QOverflow | Unmount

  /**
   * A Ruby symbol. Symbols are interned, so the code compares them as atoms:
   * the symbol of a flag name is `Named` of that flag, any other symbol is
   * `Other` with its name.
   */
  datatype Symbol = Named(flag: Flag) | Other(name: OtherName)

  /** The name of a symbol that is none of the 24 flag names. */
  type OtherName = s: string | forall f: Flag :: s != FlagName(f) witness ""

  function FlagName(f: Flag): string
  {
    match f
    case Access => "access"
    case Attrib => "attrib"
    case CloseWrite => "close_write"
    case CloseNowrite => "close_nowrite"
    case Close => "close"
    case Modify => "modify"
    case Open => "open"
    case Create => "create"
    case Delete => "delete"
    case DeleteSelf => "delete_self"
    case MovedFrom => "moved_from"
    case MovedTo => "moved_to"
    case Move => "move"
    case MoveSelf => "move_self"
    case AllEvents => "all_events"
    case Oneshot => "oneshot"
    case Onlydir => "onlydir"
    case DontFollow => "dont_follow"
    case ExclUnlink => "excl_unlink"
    case MaskAdd => "mask_add"
    case Ignored => "ignored"
    case Isdir => "isdir"
    case QOverflow => "q_overflow"
    case Unmount => "unmount"
  }

  function SymbolName(s: Symbol): string
  {
    match s
    case Named(f) => FlagName(f)
    case Other(name) => name
  }

  /** A bit position of a 32-bit mask word. */
  type Bit = i: int | 0 <= i < 32

  /**
   * An inotify mask, as the set of the positions of its one bits: OR of masks
   * is union, and `mask & bits` is non-zero exactly when the sets intersect.
   */
  type Mask = set<Bit>

  /** The bits of each flag, as <sys/inotify.h> defines them. */
  function Bits(f: Flag): (bits: Mask)
    ensures bits != {}
  {
    match f
    case Access => {0}            // IN_ACCESS        0x00000001
    case Modify => {1}            // IN_MODIFY        0x00000002
    case Attrib => {2}            // IN_ATTRIB        0x00000004
    case CloseWrite => {3}        // IN_CLOSE_WRITE   0x00000008
    case CloseNowrite => {4}      // IN_CLOSE_NOWRITE 0x00000010
    case Close => {3, 4}          // IN_CLOSE = IN_CLOSE_WRITE | IN_CLOSE_NOWRITE
    case Open => {5}              // IN_OPEN          0x00000020
    case MovedFrom => {6}         // IN_MOVED_FROM    0x00000040
    case MovedTo => {7}           // IN_MOVED_TO      0x00000080
    case Move => {6, 7}           // IN_MOVE = IN_MOVED_FROM | IN_MOVED_TO
    case Create => {8}            // IN_CREATE        0x00000100
    case Delete => {9}            // IN_DELETE        0x00000200
    case DeleteSelf => {10}       // IN_DELETE_SELF   0x00000400
    case MoveSelf => {11}         // IN_MOVE_SELF     0x00000800
    case AllEvents => {0, 1, 2, 3, 4, 5, 6, 7, 8, 9, 10, 11}  // IN_ALL_EVENTS 0x00000fff
    case Unmount => {13}          // IN_UNMOUNT       0x00002000
    case QOverflow => {14}        // IN_Q_OVERFLOW    0x00004000
    case Ignored => {15}          // IN_IGNORED       0x00008000
    case Onlydir => {24}          // IN_ONLYDIR       0x01000000
    case DontFollow => {25}       // IN_DONT_FOLLOW   0x02000000
    case ExclUnlink => {26}       // IN_EXCL_UNLINK   0x04000000
    case MaskAdd => {29}          // IN_MASK_ADD      0x20000000
    case Isdir => {30}            // IN_ISDIR         0x40000000
    case Oneshot => {31}          // IN_ONESHOT       0x80000000
  }

  /** The aliases are the unions of the flags they stand for. */
  lemma AliasesAreUnions()
    ensures Bits(Close) == Bits(CloseWrite) + Bits(CloseNowrite)
    ensures Bits(Move) == Bits(MovedFrom) + Bits(MovedTo)
    ensures Bits(AllEvents) == Bits(Access) + Bits(Modify) + Bits(Attrib) + Bits(CloseWrite)
      + Bits(CloseNowrite) + Bits(Open) + Bits(MovedFrom) + Bits(MovedTo) + Bits(Create)
      + Bits(Delete) + Bits(DeleteSelf) + Bits(MoveSelf)
  {
  }

  /** The mask shares a bit with `bits`: the test `mask & bits` of both tables. */
  predicate Meets(mask: Mask, bits: Mask)
  {
    exists b :: b in bits && b in mask
  }

  /** The bit positions set in a 32-bit word, from position `i` on (`n` already shifted right by `i`). */
  function BitsFrom(n: nat, i: nat): Mask
    requires i <= 32
    decreases 32 - i
  {
    if i == 32 then {} else (if n % 2 == 1 then {i} else {}) + BitsFrom(n / 2, i + 1)
  }

  /** The mask held by a 32-bit word. */
  function MaskOfWord(n: nat): Mask
  {
    BitsFrom(n, 0)
  }

  /** 2 to the power `b`. */
  function Pow2(b: nat): (p: nat)
    ensures p > 0
  {
    if b == 0 then 1 else 2 * Pow2(b - 1)
  }

  /** Euclidean division is determined by quotient and remainder. */
  lemma DivUnique(n: nat, m: nat, q: nat, r: nat)
    requires m > 0 && 0 <= r < m && n == m * q + r
    ensures n / m == q && n % m == r
  {
    var q', r' := n / m, n % m;
    if q < q' {
      MulAtLeast(m, q' - q);
      assert false;
    } else if q' < q {
      MulAtLeast(m, q - q');
      assert false;
    }
  }

  /** A positive multiple of `m` is at least `m`. */
  lemma {:induction false} MulAtLeast(m: nat, d: nat)
    requires d >= 1
    ensures m * d >= m
  {
    if d > 1 {
      MulAtLeast(m, d - 1);
      assert m * d == m * (d - 1) + m;
    }
  }

  /** Halving, then dividing by `2^k`, is dividing by `2^(k+1)`. */
  lemma HalveThenDivide(n: nat, k: nat)
    ensures (n / 2) / Pow2(k) == n / Pow2(k + 1)
  {
    var m := Pow2(k);
    var q := (n / 2) / m;
    var r2 := (n / 2) % m;
    assert n / 2 == m * q + r2;
    assert n == 2 * (n / 2) + n % 2;
    assert n == (2 * m) * q + (2 * r2 + n % 2);
    DivUnique(n, 2 * m, q, 2 * r2 + n % 2);
  }

  /** Position `b` is in `BitsFrom(n, i)` exactly when it is at least `i`, below 32, and bit `b - i` of `n` is 1. */
  lemma {:induction false} BitsFromSpec(n: nat, i: nat, b: nat)
    requires i <= 32
    ensures b in BitsFrom(n, i) <==> i <= b < 32 && (n / Pow2(b - i)) % 2 == 1
    decreases 32 - i
  {
    if i < 32 {
      BitsFromSpec(n / 2, i + 1, b);
      if b > i {
        HalveThenDivide(n, b - (i + 1));
      }
    }
  }

  /** A bit position is in the mask of a word exactly when that bit of the word is 1. */
  lemma MaskOfWordSpec(n: nat, b: nat)
    ensures b in MaskOfWord(n) <==> b < 32 && (n / Pow2(b)) % 2 == 1
  {
    BitsFromSpec(n, 0, b);
  }

  /** The fourteen activity flags, which open both tables in the same order. */
  const ActivityFlags: seq<Flag> := [
    Access, Attrib, CloseWrite, CloseNowrite, Close, Modify, Open,
    Create, Delete, DeleteSelf, MovedFrom, MovedTo, Move, MoveSelf]

  /** The flags the encoder accepts, in the order it compares them. */
  const EncodeFlags: seq<Flag> := [
    Access, Attrib, CloseWrite, CloseNowrite, Close, Modify, Open,
    Create, Delete, DeleteSelf, MovedFrom, MovedTo, Move, MoveSelf,
    AllEvents, Oneshot, Onlydir, DontFollow, ExclUnlink, MaskAdd]

  /** The flags the decoder can emit, in the order it emits them. */
  const DecodeFlags: seq<Flag> := [
    Access, Attrib, CloseWrite, CloseNowrite, Close, Modify, Open,
    Create, Delete, DeleteSelf, MovedFrom, MovedTo, Move, MoveSelf,
    Ignored, Isdir, QOverflow, Unmount]

  predicate Distinct(table: seq<Flag>)
  {
    forall i, j :: 0 <= i < j < |table| ==> table[i] != table[j]
  }

  /** Position of `f` in `table`; `|table|` when it is not there. */
  function IndexOf(table: seq<Flag>, f: Flag): nat
  {
    if table == [] then 0
    else if table[0] == f then 0
    else 1 + IndexOf(table[1..], f)
  }

  lemma {:induction false} IndexOfAt(table: seq<Flag>, i: nat)
    requires Distinct(table) && i < |table|
    ensures IndexOf(table, table[i]) == i
  {
    if i > 0 {
      assert table[1..][i - 1] == table[i];
      DistinctTail(table);
      IndexOfAt(table[1..], i - 1);
    }
  }

  lemma DistinctTail(table: seq<Flag>)
    requires Distinct(table) && table != []
    ensures Distinct(table[1..]) && table[0] !in table[1..]
  {
    forall i, j | 0 <= i < j < |table[1..]| ensures table[1..][i] != table[1..][j] {
      assert table[1..][i] == table[i + 1] && table[1..][j] == table[j + 1];
    }
  }

  /** The position of each flag in the order the source lists them. */
  function Rank(f: Flag): nat
  {
    match f
    case Access => 0
    case Attrib => 1
    case CloseWrite => 2
    case CloseNowrite => 3
    case Close => 4
    case Modify => 5
    case Open => 6
    case Create => 7
    case Delete => 8
    case DeleteSelf => 9
    case MovedFrom => 10
    case MovedTo => 11
    case Move => 12
    case MoveSelf => 13
    case AllEvents => 14
    case Oneshot => 15
    case Onlydir => 16
    case DontFollow => 17
    case ExclUnlink => 18
    case MaskAdd => 19
    case Ignored => 20
    case Isdir => 21
    case QOverflow => 22
    case Unmount => 23
  }

  lemma {:induction false} RankIncreasingIsDistinct(table: seq<Flag>)
    requires forall i :: 0 <= i < |table| - 1 ==> Rank(table[i]) < Rank(table[i + 1])
    ensures forall i, j :: 0 <= i < j < |table| ==> Rank(table[i]) < Rank(table[j])
    ensures Distinct(table)
  {
    if table != [] {
      var tail := table[1..];
      forall i | 0 <= i < |tail| - 1 ensures Rank(tail[i]) < Rank(tail[i + 1]) {
        assert tail[i] == table[i + 1] && tail[i + 1] == table[i + 2];
      }
      RankIncreasingIsDistinct(tail);
      forall i, j | 0 <= i < j < |table| ensures Rank(table[i]) < Rank(table[j]) {
        if i > 0 {
          assert table[i] == tail[i - 1] && table[j] == tail[j - 1];
        } else if j > 1 {
          assert table[1] == tail[0] && table[j] == tail[j - 1];
        }
      }
    }
  }

  lemma TablesDistinct()
    ensures Distinct(EncodeFlags) && Distinct(DecodeFlags)
  {
    RankIncreasingIsDistinct(EncodeFlags);
    RankIncreasingIsDistinct(DecodeFlags);
  }

  // ---------------------------------------------------------------------
  // Encoder

  /** The symbol is one the encoder compares against, i.e. a flag of its table. */
  predicate IsEncodable(s: Symbol)
  {
    s.Named? && !s.flag.Ignored? && !s.flag.Isdir? && !s.flag.QOverflow? && !s.flag.Unmount?
  }

  /** The encodable symbols are exactly the names of the encoder's table. */
  lemma EncodableIsInTable(s: Symbol)
    ensures IsEncodable(s) <==> s.Named? && s.flag in EncodeFlags
  {
  }

  predicate AllEncodable(flags: seq<Symbol>)
  {
    forall i :: 0 <= i < |flags| ==> IsEncodable(flags[i])
  }

  function ValueOf(s: Symbol): Mask
    requires IsEncodable(s)
  {
    Bits(s.flag)
  }

  /** The mask of a list of accepted names: the OR of their values, taken from the left. */
  function MaskOf(flags: seq<Symbol>): (mask: Mask)
    requires AllEncodable(flags)
  {
    if flags == [] then {} else MaskOf(flags[..|flags| - 1]) + ValueOf(flags[|flags| - 1])
  }

  /** Every accepted name has a bit, so only the empty list encodes to the empty mask. */
  lemma MaskOfEmpty(flags: seq<Symbol>)
    requires AllEncodable(flags)
    ensures MaskOf(flags) == {} <==> flags == []
  {
    if flags != [] {
      var b :| b in ValueOf(flags[|flags| - 1]);
      assert b in MaskOf(flags);
    }
  }

  /** `k` is the first position of `flags` holding a name the encoder rejects. */
  predicate FirstUnknownAt(flags: seq<Symbol>, k: int)
  {
    0 <= k < |flags| && !IsEncodable(flags[k]) && AllEncodable(flags[..k])
  }

  /** The message of the `ArgumentError` the encoder raises for a name it does not know. */
  function UnknownFlagMessage(s: Symbol): (m: string)
    ensures |m| == 14 + |SymbolName(s)| && m[..14] == "unknown flag :" && m[14..] == SymbolName(s)
  {
    "unknown flag :" + SymbolName(s)
  }

  /**
   * The encoder: goes through the names in order, OR-ing the value of each
   * accepted one into the mask, and raises on the first name it does not know.
   */
  method FlagsToMask(flags: seq<Symbol>) returns (r: Result<Mask>)
    ensures r.Success? <==> AllEncodable(flags)
    ensures r.Success? ==> r.value == MaskOf(flags)
    ensures r.Failure? ==>
      exists k :: FirstUnknownAt(flags, k) && r.error == ArgumentError(UnknownFlagMessage(flags[k]))
    ensures flags == [] ==> r == Success({})
  {
    var mask: Mask := {};
    var i := 0;
    while i < |flags|
      invariant 0 <= i <= |flags|
      invariant AllEncodable(flags[..i])
      invariant mask == MaskOf(flags[..i])
    {
      if !IsEncodable(flags[i]) {
        assert FirstUnknownAt(flags, i);
        return Failure(ArgumentError(UnknownFlagMessage(flags[i])));
      }
      assert flags[..i + 1][..i] == flags[..i];
      mask := mask + ValueOf(flags[i]);
      i := i + 1;
    }
    assert flags[..i] == flags;
    return Success(mask);
  }

  /** A bit is in the mask of a name list exactly when it is a bit of one of the names. */
  lemma {:induction false} MaskOfIsBitwiseOr(flags: seq<Symbol>, b: Bit)
    requires AllEncodable(flags)
    ensures b in MaskOf(flags) <==> exists i :: 0 <= i < |flags| && b in ValueOf(flags[i])
  {
    if flags != [] {
      var n := |flags| - 1;
      var init := flags[..n];
      assert AllEncodable(init) by {
        forall i | 0 <= i < |init| ensures IsEncodable(init[i]) {
          assert init[i] == flags[i];
        }
      }
      MaskOfIsBitwiseOr(init, b);
      assert MaskOf(flags) == MaskOf(init) + ValueOf(flags[n]);
      if b in MaskOf(init) {
        var i :| 0 <= i < |init| && b in ValueOf(init[i]);
        assert init[i] == flags[i];
      } else if b !in ValueOf(flags[n]) {
        forall i | 0 <= i < |flags| ensures b !in ValueOf(flags[i]) {
          if i < n {
            assert init[i] == flags[i];
          }
        }
      }
    }
  }

  /** Input order and repetitions do not matter: two lists with the same names give the same mask. */
  lemma MaskOfSameNames(s: seq<Symbol>, t: seq<Symbol>)
    requires AllEncodable(s) && AllEncodable(t)
    requires forall x :: x in s <==> x in t
    ensures MaskOf(s) == MaskOf(t)
  {
    forall b: Bit ensures b in MaskOf(s) <==> b in MaskOf(t) {
      MaskOfIsBitwiseOr(s, b);
      MaskOfIsBitwiseOr(t, b);
      if i :| 0 <= i < |s| && b in ValueOf(s[i]) {
        assert s[i] in t;
        var j :| 0 <= j < |t| && t[j] == s[i];
      }
      if j :| 0 <= j < |t| && b in ValueOf(t[j]) {
        assert t[j] in s;
        var i :| 0 <= i < |s| && s[i] == t[j];
      }
    }
  }

  // ---------------------------------------------------------------------
  // Decoder

  /** One `READ_FLAG` line: the flag, when its bits meet the mask. */
  function Pick(mask: Mask, f: Flag): (r: seq<Flag>)
  {
    if Meets(mask, Bits(f)) then [f] else []
  }

  /**
   * The flags of the first `n` rows of `table` whose bits meet the mask, in
   * table order: the rows' `READ_FLAG` lines one after the other.
   */
  function Scan(table: seq<Flag>, mask: Mask, n: nat): (r: seq<Flag>)
    requires n <= |table|
  {
    if n == 0 then [] else Scan(table, mask, n - 1) + Pick(mask, table[n - 1])
  }

  /** A scan yields at most one flag per row, and none from the empty mask. */
  lemma {:induction false} ScanBounds(table: seq<Flag>, mask: Mask, n: nat)
    requires n <= |table|
    ensures |Scan(table, mask, n)| <= n
    ensures mask == {} ==> Scan(table, mask, n) == []
  {
    if n > 0 {
      ScanBounds(table, mask, n - 1);
    }
  }

  /** The decoder: every row of the decode table, in order. */
  function MaskToFlags(mask: Mask): (flags: seq<Flag>)
    ensures |flags| <= |DecodeFlags|
    ensures mask == {} ==> flags == []
  {
    ScanBounds(DecodeFlags, mask, |DecodeFlags|);
    Scan(DecodeFlags, mask, |DecodeFlags|)
  }

  lemma {:induction false} ScanMember(table: seq<Flag>, mask: Mask, n: nat, f: Flag)
    requires n <= |table|
    ensures f in Scan(table, mask, n) <==> f in table[..n] && Meets(mask, Bits(f))
  {
    if n > 0 {
      ScanMember(table, mask, n - 1, f);
      assert table[..n] == table[..n - 1] + [table[n - 1]];
    }
  }

  lemma {:induction false} ScanOrdered(table: seq<Flag>, mask: Mask, n: nat)
    requires Distinct(table) && n <= |table|
    ensures forall k :: 0 <= k < |Scan(table, mask, n)| ==> IndexOf(table, Scan(table, mask, n)[k]) < n
    ensures forall j, k :: 0 <= j < k < |Scan(table, mask, n)| ==>
      IndexOf(table, Scan(table, mask, n)[j]) < IndexOf(table, Scan(table, mask, n)[k])
  {
    if n > 0 {
      ScanOrdered(table, mask, n - 1);
      IndexOfAt(table, n - 1);
    }
  }

  /** A flag is emitted exactly when it is in the decode table and its bits meet the mask. */
  lemma DecodeMember(mask: Mask, f: Flag)
    ensures f in MaskToFlags(mask) <==> f in DecodeFlags && Meets(mask, Bits(f))
  {
    ScanMember(DecodeFlags, mask, |DecodeFlags|, f);
    assert DecodeFlags[..|DecodeFlags|] == DecodeFlags;
  }

  /** Flags come out in table order, each at most once. */
  lemma DecodeOrdered(mask: Mask)
    ensures forall i, j :: 0 <= i < j < |MaskToFlags(mask)| ==>
      IndexOf(DecodeFlags, MaskToFlags(mask)[i]) < IndexOf(DecodeFlags, MaskToFlags(mask)[j])
    ensures forall i, j :: 0 <= i < j < |MaskToFlags(mask)| ==> MaskToFlags(mask)[i] != MaskToFlags(mask)[j]
  {
    TablesDistinct();
    ScanOrdered(DecodeFlags, mask, |DecodeFlags|);
  }

  /** The flags the decoder's table holds: all but the aggregate `all_events` and the option flags. */
  predicate IsDecodable(f: Flag)
  {
    !f.AllEvents? && !f.Oneshot? && !f.Onlydir? && !f.DontFollow? && !f.ExclUnlink? && !f.MaskAdd?
  }

  lemma DecodableIsInTable(f: Flag)
    ensures IsDecodable(f) <==> f in DecodeFlags
  {
  }

  /** Only flags of the table come out: never the aggregate `all_events` nor an option flag. */
  lemma DecodeRestricted(mask: Mask)
    ensures forall f :: f in MaskToFlags(mask) ==> IsDecodable(f)
  {
    forall f | f in MaskToFlags(mask) ensures IsDecodable(f) {
      DecodeMember(mask, f);
      DecodableIsInTable(f);
    }
  }

  /**
   * `close` and `move` are in the decode table, so they come out whenever one
   * of their two constituent bits is set.
   */
  lemma DecodeCloseAndMove(mask: Mask)
    ensures Close in MaskToFlags(mask) <==> Meets(mask, Bits(CloseWrite) + Bits(CloseNowrite))
    ensures Close in MaskToFlags(mask) <==>
      CloseWrite in MaskToFlags(mask) || CloseNowrite in MaskToFlags(mask)
    ensures Move in MaskToFlags(mask) <==> Meets(mask, Bits(MovedFrom) + Bits(MovedTo))
    ensures Move in MaskToFlags(mask) <==>
      MovedFrom in MaskToFlags(mask) || MovedTo in MaskToFlags(mask)
  {
    DecodeMember(mask, Close);
    DecodeMember(mask, CloseWrite);
    DecodeMember(mask, CloseNowrite);
    DecodeMember(mask, Move);
    DecodeMember(mask, MovedFrom);
    DecodeMember(mask, MovedTo);
  }


  lemma MaskOfSingleton(s: Symbol)
    requires IsEncodable(s)
    ensures MaskOf([s]) == ValueOf(s)
  {
    assert [s][..0] == [];
  }

  /** Every activity name is accepted by the encoder and its flag is found again by the decoder. */
  lemma DecodeEncodeActivity(f: Flag)
    requires f in ActivityFlags
    ensures IsEncodable(Named(f))
    ensures f in MaskToFlags(MaskOf([Named(f)]))
  {
    MaskOfSingleton(Named(f));
    assert f in DecodeFlags;
    assert Bits(f) != {};
    DecodeMember(Bits(f), f);
  }

  /** Rows whose bits the mask misses add nothing to the scan. */
  lemma {:induction false} ScanSkips(table: seq<Flag>, mask: Mask, lo: nat, n: nat)
    requires lo <= n <= |table|
    requires forall k :: lo <= k < n ==> !Meets(mask, Bits(table[k]))
    ensures Scan(table, mask, n) == Scan(table, mask, lo)
  {
    if lo < n {
      ScanSkips(table, mask, lo, n - 1);
    }
  }

  /** Rows whose bits the mask meets all come out, in table order. */
  lemma {:induction false} ScanKeeps(table: seq<Flag>, mask: Mask, lo: nat, n: nat)
    requires lo <= n <= |table|
    requires forall k :: lo <= k < n ==> Meets(mask, Bits(table[k]))
    ensures Scan(table, mask, n) == Scan(table, mask, lo) + table[lo..n]
  {
    if lo < n {
      ScanKeeps(table, mask, lo, n - 1);
      assert table[lo..n] == table[lo..n - 1] + [table[n - 1]];
    }
  }

  /** The bit of `close_write` meets exactly the rows `close_write` and `close` of the decode table. */
  lemma CloseWriteMeetsRows()
    ensures forall k :: 0 <= k < |DecodeFlags| ==>
      (Meets(Bits(CloseWrite), Bits(DecodeFlags[k])) <==> k == 2 || k == 4)
  {
    var m := Bits(CloseWrite);
    assert Meets(m, Bits(CloseWrite)) by { assert 3 in m; }
    assert Meets(m, Bits(Close)) by { assert 3 in Bits(Close); }
  }

  /**
   * The decoder is not the inverse of the encoder: one constituent bit brings
   * its alias along ...
   */
  lemma DecodeCloseWrite()
    ensures IsEncodable(Named(CloseWrite))
    ensures MaskToFlags(MaskOf([Named(CloseWrite)])) == [CloseWrite, Close]
  {
    MaskOfSingleton(Named(CloseWrite));
    var m := Bits(CloseWrite);
    CloseWriteMeetsRows();
    ScanSkips(DecodeFlags, m, 5, |DecodeFlags|);
    ScanSkips(DecodeFlags, m, 0, 2);
    assert Scan(DecodeFlags, m, 3) == [CloseWrite];
    assert Scan(DecodeFlags, m, 4) == [CloseWrite];
  }

  /** The bits of `all_events` meet exactly the fourteen activity rows of the decode table. */
  lemma AllEventsMeetsActivityRows()
    ensures forall k :: 0 <= k < 14 ==> Meets(Bits(AllEvents), Bits(DecodeFlags[k]))
    ensures forall k :: 14 <= k < |DecodeFlags| ==> !Meets(Bits(AllEvents), Bits(DecodeFlags[k]))
  {
    var m := Bits(AllEvents);
    assert Meets(m, Bits(Access)) by { assert 0 in m && 0 in Bits(Access); }
    assert Meets(m, Bits(Attrib)) by { assert 2 in m && 2 in Bits(Attrib); }
    assert Meets(m, Bits(CloseWrite)) by { assert 3 in m && 3 in Bits(CloseWrite); }
    assert Meets(m, Bits(CloseNowrite)) by { assert 4 in m && 4 in Bits(CloseNowrite); }
    assert Meets(m, Bits(Close)) by { assert 3 in m && 3 in Bits(Close); }
    assert Meets(m, Bits(Modify)) by { assert 1 in m && 1 in Bits(Modify); }
    assert Meets(m, Bits(Open)) by { assert 5 in m && 5 in Bits(Open); }
  }

  /** The first fourteen rows of the decode table are the activity flags. */
  lemma ActivityRowsFirst()
    ensures DecodeFlags[0..14] == ActivityFlags
  {
  }

  /** A mask that meets exactly the fourteen activity rows decodes to the activity flags. */
  lemma DecodeActivityMask(m: Mask)
    requires forall k :: 0 <= k < 14 ==> Meets(m, Bits(DecodeFlags[k]))
    requires forall k :: 14 <= k < |DecodeFlags| ==> !Meets(m, Bits(DecodeFlags[k]))
    ensures MaskToFlags(m) == ActivityFlags
  {
    ScanSkips(DecodeFlags, m, 14, |DecodeFlags|);
    ScanKeeps(DecodeFlags, m, 0, 14);
    ActivityRowsFirst();
  }

  /** ... and `all_events` comes back as the fourteen activity flags, aliases included. */
  lemma DecodeAllEvents()
    ensures IsEncodable(Named(AllEvents))
    ensures MaskToFlags(MaskOf([Named(AllEvents)])) == ActivityFlags
  {
    MaskOfSingleton(Named(AllEvents));
    AllEventsMeetsActivityRows();
    DecodeActivityMask(Bits(AllEvents));
  }
}
