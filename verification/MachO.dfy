/** The load-command walk that finds a program's entry point in a Mach-O file. */
module MachO {
  import opened Words

  const MH_MAGIC_64: nat := 0xfeedfacf
  const MH_CIGAM_64: nat := 0xcffaedfe
  const MH_CIGAM: nat := 0xcefaedfe
  const FAT_MAGIC: nat := 0xcafebabe
  const FAT_CIGAM: nat := 0xbebafeca
  const LC_SEGMENT: nat := 0x1
  const LC_SEGMENT_64: nat := 0x19
  const LC_MAIN: nat := 0x80000028

  datatype EntryPoint = EntryPoint(entryoff: nat, stacksize: nat)
  datatype Option<T> = None | Some(value: T)

  predicate IsMagic64(magic: nat) {
    magic == MH_MAGIC_64 || magic == MH_CIGAM_64
  }

  predicate ShouldSwapBytes(magic: nat) {
    magic == MH_CIGAM || magic == MH_CIGAM_64 || magic == FAT_CIGAM
  }

  predicate IsFat(magic: nat) {
    magic == FAT_MAGIC || magic == FAT_CIGAM
  }

  // ---- the file as a value ----

  /** The bytes of file from off, with zeros past the end. */
  function BytesFrom(file: seq<Byte>, off: nat, size: nat): (s: seq<Byte>)
    ensures |s| == size
  {
    seq(size, i requires 0 <= i => if off + i < |file| then file[off + i] else 0)
  }

  /** Where a read at off starts: a seek before the start of the file fails and leaves the position. */
  function SeekTo(pos: nat, off: int): nat {
    if off >= 0 then off else pos
  }

  function Min(a: int, b: int): int {
    if a < b then a else b
  }

  /** The position after reading size bytes from pos. */
  function AfterRead(file: seq<Byte>, pos: nat, size: nat): nat {
    Max(pos, Min(pos + size, |file|))
  }

  function Word(file: seq<Byte>, pos: nat): nat {
    FromLe(BytesFrom(file, pos, 4))
  }

  function EntryAt(file: seq<Byte>, pos: nat): EntryPoint {
    EntryPoint(FromLe(BytesFrom(file, pos + 8, 8)), FromLe(BytesFrom(file, pos + 16, 8)))
  }

  /** How many bytes the walk reads again for a segment command, only to log its name. */
  function SegmentSize(cmd: nat): nat {
    if cmd == LC_SEGMENT_64 then 72 else if cmd == LC_SEGMENT then 56 else 0
  }

  /** The walk over at most n commands from offset off, with the file at position pos. */
  function Commands(file: seq<Byte>, pos: nat, off: int, n: nat): Option<EntryPoint>
    decreases n
  {
    if n == 0 then None else
    var p := SeekTo(pos, off);
    var cmd, size := Word(file, p), Word(file, p + 4);
    var p1 := AfterRead(file, p, 8);
    if cmd == LC_MAIN then Some(EntryAt(file, SeekTo(p1, off)))
    else
      var p2 := if SegmentSize(cmd) > 0 then AfterRead(file, SeekTo(p1, off), SegmentSize(cmd)) else p1;
      Commands(file, p2, ToInt32(off + size), n - 1)
  }

  function HeaderSize(magic: nat): nat {
    if IsMagic64(magic) then 32 else 28
  }

  /** What read_entry_point_cmd finds. */
  function Entry(file: seq<Byte>): Option<EntryPoint> {
    var magic := Word(file, 0);
    if IsFat(magic) then None
    else
      var h := HeaderSize(magic);
      Commands(file, AfterRead(file, 0, h), h, Word(file, 16))
  }

  // ---- the parser ----

  lemma PartsOf(file: seq<Byte>, off: nat, size: nat, lo: nat, hi: nat)
    requires lo <= hi <= size
    ensures BytesFrom(file, off, size)[lo..hi] == BytesFrom(file, off + lo, hi - lo)
  {
  }

  lemma HeadIs(file: seq<Byte>, p: nat, cmd: seq<Byte>)
    requires cmd == BytesFrom(file, p, 8)
    ensures |cmd| == 8 && FromLe(cmd[0..4]) == Word(file, p) && FromLe(cmd[4..8]) == Word(file, p + 4)
  {
    hide FromLe, BytesFrom;
    PartsOf(file, p, 8, 0, 4);
    PartsOf(file, p, 8, 4, 8);
  }

  lemma EntryIs(file: seq<Byte>, q: nat, entry: seq<Byte>)
    requires entry == BytesFrom(file, q, 24)
    ensures |entry| == 24 && EntryPoint(FromLe(entry[8..16]), FromLe(entry[16..24])) == EntryAt(file, q)
  {
    hide FromLe, BytesFrom;
    PartsOf(file, q, 24, 8, 16);
    PartsOf(file, q, 24, 16, 24);
  }

  lemma NoCommands(file: seq<Byte>, pos: nat, off: int)
    ensures Commands(file, pos, off, 0) == None
  {
  }

  /** One command of the walk. */
  lemma OneCommand(file: seq<Byte>, pos: nat, off: int, n: nat)
    requires n > 0
    ensures var p := SeekTo(pos, off);
            var cmd, p1 := Word(file, p), AfterRead(file, p, 8);
            var k := SegmentSize(cmd);
            var p2 := if k > 0 then AfterRead(file, SeekTo(p1, off), k) else p1;
            Commands(file, pos, off, n) ==
            if cmd == LC_MAIN then Some(EntryAt(file, SeekTo(p1, off)))
            else Commands(file, p2, ToInt32(off + Word(file, p + 4)), n - 1)
  {
    hide Word, EntryAt, AfterRead, ToInt32;
  }

  class ObjFile {
    const data: seq<Byte>
    var pos: nat

    constructor (data: seq<Byte>)
      ensures this.data == data && pos == 0
    {
      this.data, pos := data, 0;
    }

    /** Seeks and reads into a zeroed buffer. */
    method LoadBytes(offset: int, size: nat) returns (buf: seq<Byte>)
      modifies this
      ensures buf == BytesFrom(data, SeekTo(old(pos), offset), size)
      ensures pos == AfterRead(data, SeekTo(old(pos), offset), size)
      ensures var p := if offset >= 0 then offset else old(pos);
              && |buf| == size && (forall i :: 0 <= i < size ==> buf[i] == if p + i < |data| then data[p + i] else 0)
              && pos == if p + size <= |data| then p + size else if p <= |data| then |data| else p
    {
      if offset >= 0 { pos := offset; }
      var n := Max(0, Min(size, |data| - pos));
      var zeros := seq(size - n, _ => 0);
      buf := (if n > 0 then data[pos..pos + n] else []) + zeros;
      pos := pos + n;
    }

    method ReadSegmentCommands(offset: int, ncmds: nat) returns (r: Option<EntryPoint>)
      modifies this
      ensures r == Commands(data, old(pos), offset, ncmds)
    {
      hide Commands, AfterRead, Word, EntryAt, FromLe, BytesFrom, ToInt32;
      var actual := offset;
      var i := 0;
      while i < ncmds
        invariant i <= ncmds
        invariant Commands(data, old(pos), offset, ncmds) == Commands(data, pos, actual, ncmds - i)
      {
        OneCommand(data, pos, actual, ncmds - i);
        ghost var p := SeekTo(pos, actual);
        var cmd := LoadBytes(actual, 8);
        HeadIs(data, p, cmd);
        var kind, size := FromLe(cmd[0..4]), FromLe(cmd[4..8]);
        if kind == LC_SEGMENT_64 {
          var segment := LoadBytes(actual, 72);
        } else if kind == LC_SEGMENT {
          var segment := LoadBytes(actual, 56);
        } else if kind == LC_MAIN {
          ghost var q := SeekTo(pos, actual);
          var entry := LoadBytes(actual, 24);
          EntryIs(data, q, entry);
          return Some(EntryPoint(FromLe(entry[8..16]), FromLe(entry[16..24])));
        }
        actual := ToInt32(actual + size);
        i := i + 1;
      }
      NoCommands(data, pos, actual);
      r := None;
    }

    method ReadMachHeader(is64: bool) returns (r: Option<EntryPoint>)
      modifies this
      ensures r == Commands(data, AfterRead(data, 0, if is64 then 32 else 28), if is64 then 32 else 28, Word(data, 16))
    {
      hide Commands, FromLe;
      var size := if is64 then 32 else 28;
      var header := LoadBytes(0, size);
      PartsOf(data, 0, size, 16, 20);
      r := ReadSegmentCommands(size, FromLe(header[16..20]));
    }

    /** The file must have this machine's byte order. */
    method ReadEntryPointCmd() returns (r: Option<EntryPoint>)
      requires !ShouldSwapBytes(Word(data, 0)) || IsFat(Word(data, 0))
      modifies this
      ensures r == Entry(data)
    {
      hide Commands, FromLe;
      var magic := LoadBytes(0, 4);
      var m := FromLe(magic);
      if IsFat(m) { return None; }
      r := ReadMachHeader(IsMagic64(m));
    }
  }

  // ---- serialised command lists ----

  datatype Command = Command(cmd: nat, body: seq<Byte>) {
    predicate Valid() {
      cmd < 0x1_0000_0000 && 8 + |body| < 0x8000_0000
    }

    function Bytes(): (s: seq<Byte>)
      ensures |s| == 8 + |body|
    {
      Le(cmd, 4) + Le(8 + |body|, 4) + body
    }
  }

  function Serialize(cmds: seq<Command>): seq<Byte> {
    if cmds == [] then [] else cmds[0].Bytes() + Serialize(cmds[1..])
  }

  /** Offset of command k from the first. */
  function OffsetOf(cmds: seq<Command>, k: nat): nat
    requires k <= |cmds|
  {
    if k == 0 then 0 else 8 + |cmds[0].body| + OffsetOf(cmds[1..], k - 1)
  }

  /** The first LC_MAIN among the first n commands. */
  function FirstMain(cmds: seq<Command>, n: nat): (r: Option<nat>)
    requires n <= |cmds|
    ensures r.Some? ==> r.value < n
  {
    if n == 0 then None
    else if cmds[0].cmd == LC_MAIN then Some(0)
    else match FirstMain(cmds[1..], n - 1)
      case None => None
      case Some(k) => Some(k + 1)
  }

  lemma {:induction false} FirstMainIsFirst(cmds: seq<Command>, n: nat)
    requires n <= |cmds|
    ensures match FirstMain(cmds, n)
            case None => forall j :: 0 <= j < n ==> cmds[j].cmd != LC_MAIN
            case Some(k) => cmds[k].cmd == LC_MAIN && forall j :: 0 <= j < k ==> cmds[j].cmd != LC_MAIN
  {
    if n > 0 && cmds[0].cmd != LC_MAIN {
      FirstMainIsFirst(cmds[1..], n - 1);
      assert forall j :: 0 < j < n ==> cmds[j] == cmds[1..][j - 1];
    }
  }

  /** The file holds s at off. */
  predicate HoldsAt(file: seq<Byte>, off: nat, s: seq<Byte>) {
    off + |s| <= |file| && file[off..off + |s|] == s
  }

  lemma HoldsPart(file: seq<Byte>, off: nat, s: seq<Byte>, t: seq<Byte>)
    requires HoldsAt(file, off, s + t)
    ensures HoldsAt(file, off, s) && HoldsAt(file, off + |s|, t)
  {
    assert file[off..off + |s|] == (s + t)[..|s|] == s;
    assert file[off + |s|..off + |s| + |t|] == (s + t)[|s|..] == t;
  }

  lemma BytesOfPart(file: seq<Byte>, off: nat, s: seq<Byte>)
    requires HoldsAt(file, off, s)
    ensures BytesFrom(file, off, |s|) == s
  {
    assert BytesFrom(file, off, |s|) == file[off..off + |s|];
  }

  lemma {:induction false} CommandWords(file: seq<Byte>, off: nat, c: Command)
    requires c.Valid() && HoldsAt(file, off, c.Bytes())
    ensures Word(file, off) == c.cmd && Word(file, off + 4) == 8 + |c.body|
    ensures HoldsAt(file, off + 8, c.body)
  {
    hide FromLe, Le, BytesFrom;
    HoldsPart(file, off, Le(c.cmd, 4) + Le(8 + |c.body|, 4), c.body);
    HoldsPart(file, off, Le(c.cmd, 4), Le(8 + |c.body|, 4));
    BytesOfPart(file, off, Le(c.cmd, 4));
    BytesOfPart(file, off + 4, Le(8 + |c.body|, 4));
    Pow256Values();
    FromLeLe(c.cmd, 4);
    FromLeLe(8 + |c.body|, 4);
  }

  lemma NoWrap(file: seq<Byte>, off: nat, c: Command)
    requires HoldsAt(file, off, c.Bytes()) && |file| < 0x8000_0000
    ensures ToInt32(off + (8 + |c.body|)) == off + 8 + |c.body|
  {
  }

  lemma {:induction false} WalkFindsFirst(file: seq<Byte>, pos: nat, off: nat, cmds: seq<Command>, n: nat)
    requires n <= |cmds| && forall c :: c in cmds ==> c.Valid()
    requires HoldsAt(file, off, Serialize(cmds)) && |file| < 0x8000_0000
    ensures Commands(file, pos, off, n) ==
            match FirstMain(cmds, n)
            case None => None
            case Some(k) => Some(EntryAt(file, off + OffsetOf(cmds, k)))
    decreases n
  {
    hide FromLe, Le, BytesFrom, EntryAt, AfterRead, Word, HoldsAt, ToInt32, Command.Bytes;
    if n > 0 {
      var c := cmds[0];
      HoldsPart(file, off, c.Bytes(), Serialize(cmds[1..]));
      CommandWords(file, off, c);
      if c.cmd != LC_MAIN {
        var p1 := AfterRead(file, off, 8);
        var p2 := if SegmentSize(c.cmd) > 0 then AfterRead(file, off, SegmentSize(c.cmd)) else p1;
        NoWrap(file, off, c);
        WalkFindsFirst(file, p2, off + 8 + |c.body|, cmds[1..], n - 1);
      }
    }
  }

  /**
    On a file of this machine's byte order whose header is followed by the serialised commands, the
    parser returns the first LC_MAIN among the first ncmds commands, and fails when there is none.
   */
  lemma {:induction false} EntryIsFirstMain(header: seq<Byte>, cmds: seq<Command>, rest: seq<Byte>, ncmds: nat)
    requires |header| >= 28 && |header| == HeaderSize(FromLe(header[..4])) && !IsFat(FromLe(header[..4]))
    requires header[16..20] == Le(ncmds, 4) && ncmds <= |cmds| && ncmds < 0x1_0000_0000
    requires forall c :: c in cmds ==> c.Valid()
    requires |header + Serialize(cmds) + rest| < 0x8000_0000
    ensures Entry(header + Serialize(cmds) + rest) ==
            match FirstMain(cmds, ncmds)
            case None => None
            case Some(k) => Some(EntryAt(header + Serialize(cmds) + rest, |header| + OffsetOf(cmds, k)))
  {
    hide FromLe, Le, Commands, FirstMain, EntryAt, Serialize;
    var file := header + Serialize(cmds) + rest;
    assert BytesFrom(file, 0, 4) == header[..4];
    assert BytesFrom(file, 16, 4) == header[16..20];
    Pow256Values();
    FromLeLe(ncmds, 4);
    assert HoldsAt(file, |header|, Serialize(cmds));
    WalkFindsFirst(file, AfterRead(file, 0, |header|), |header|, cmds, ncmds);
  }

  /** The first word of a file, as its header says it. */
  ghost predicate StartsWith(file: seq<Byte>, magic: nat) {
    |file| >= 4 && FromLe(file[..4]) == magic
  }

  /**
    Executables of this byte order: the 32-byte header of a 64-bit file and the 28-byte header of a 32-bit
    one, followed by the serialised commands. The parser returns the first LC_MAIN (0x80000028) among the
    first ncmds commands, at the sum of the sizes before it, and nothing exactly when there is none.
   */
  lemma {:induction false} NativeFileEntry(header: seq<Byte>, cmds: seq<Command>, rest: seq<Byte>, ncmds: nat)
    requires (|header| == 32 && StartsWith(header, 0xfeedfacf)) || (|header| == 28 && StartsWith(header, 0xfeedface))
    requires FromLe(header[16..20]) == ncmds <= |cmds|
    requires forall c :: c in cmds ==> c.Valid()
    requires |header + Serialize(cmds) + rest| < 0x8000_0000
    ensures var file := header + Serialize(cmds) + rest;
            && !ShouldSwapBytes(Word(file, 0))
            && (Entry(file) == None <==> forall j :: 0 <= j < ncmds ==> cmds[j].cmd != 0x80000028)
            && forall k :: 0 <= k < ncmds && IsFirst(cmds, k) ==>
                 Entry(file) == Some(EntryAt(file, |header| + OffsetOf(cmds, k)))
  {
    hide FromLe, Le, Commands, FirstMain, EntryAt, Serialize, OffsetOf;
    var file := header + Serialize(cmds) + rest;
    assert BytesFrom(file, 0, 4) == header[..4];
    LeFromLe(header[16..20]);
    Pow256Values();
    EntryIsFirstMain(header, cmds, rest, ncmds);
    FirstMainIsFirst(cmds, ncmds);
    forall k | 0 <= k < ncmds && IsFirst(cmds, k) ensures FirstMain(cmds, ncmds) == Some(k) {
      assert cmds[k].cmd == 0x80000028;
    }
  }

  /** Command k is LC_MAIN and none before it is. */
  predicate IsFirst(cmds: seq<Command>, k: nat)
    requires k < |cmds|
  {
    cmds[k].cmd == 0x80000028 && forall j :: 0 <= j < k ==> cmds[j].cmd != 0x80000028
  }

  /** Fat files have no entry point, in either byte order. */
  lemma {:induction false} FatFileHasNone(file: seq<Byte>)
    requires StartsWith(file, 0xcafebabe) || StartsWith(file, 0xbebafeca)
    ensures Entry(file) == None
  {
    hide FromLe, Commands;
    assert BytesFrom(file, 0, 4) == file[..4];
  }

  /** The files whose bytes the code swaps, which are not part of this model. */
  lemma SwappedFiles(magic: nat)
    ensures ShouldSwapBytes(magic) && !IsFat(magic) <==> magic == 0xcefaedfe || magic == 0xcffaedfe
  {
  }

  /** The entry read is the one the command was serialised with. */
  lemma {:induction false} EntryOfMain(file: seq<Byte>, off: nat, cmds: seq<Command>, k: nat, e: EntryPoint,
        more: seq<Byte>)
    requires HoldsAt(file, off, Serialize(cmds)) && k < |cmds| && cmds[k].Valid()
    requires e.entryoff < 0x1_0000_0000_0000_0000 && e.stacksize < 0x1_0000_0000_0000_0000
    requires cmds[k].body == Le(e.entryoff, 8) + (Le(e.stacksize, 8) + more)
    ensures EntryAt(file, off + OffsetOf(cmds, k)) == e
    decreases k
  {
    hide FromLe, Le, BytesFrom;
    HoldsPart(file, off, cmds[0].Bytes(), Serialize(cmds[1..]));
    if k > 0 {
      assert cmds[k] == cmds[1..][k - 1];
      EntryOfMain(file, off + 8 + |cmds[0].body|, cmds[1..], k - 1, e, more);
    } else {
      CommandWords(file, off, cmds[0]);
      HoldsPart(file, off + 8, Le(e.entryoff, 8), Le(e.stacksize, 8) + more);
      HoldsPart(file, off + 16, Le(e.stacksize, 8), more);
      BytesOfPart(file, off + 8, Le(e.entryoff, 8));
      BytesOfPart(file, off + 16, Le(e.stacksize, 8));
      Pow256Values();
      FromLeLe(e.entryoff, 8);
      FromLeLe(e.stacksize, 8);
    }
  }
}
