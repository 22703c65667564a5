/** boot_set_gpio (spl/drivers/pinmux.c): pins are configured through four shadow registers
    that are written back only when the register group changes.  Register layout of
    spl/include/arch/gpio.h with CFG_SUNXI_GPIO_V2. */
module PinMux {
  import opened BitVectors
  import opened Ints

  type char8 = x: int | -128 <= x < 256   // `char`, whose signedness the platform chooses

  const PIO_BASE: int := 0x0200_0000
  const R_PIO_BASE: int := 0x0702_2000
  const PIOC_OFFSET: int := 0x30
  const PIO_CFG_MASK: word := 0xF

  /** normal_gpio_set_t */
  datatype Pin = Pin(port: u8, num: u8, mulSel: char8, pull: char8, drv: char8, data: char8)

  /** The addresses of the four registers a pin is configured through. */
  datatype Sel = Sel(cfg: int, pull: int, drv: int, data: int)

  /** PIO_REG_CFG, PIO_REG_PULL, PIO_REG_DLEVEL and PIO_REG_DATA. */
  function PioSel(p: Pin): Sel {
    SelAt(PIO_BASE + (p.port - 1) * PIOC_OFFSET, p.num)
  }

  /** The R_PIO_REG_* addresses. */
  function RPioSel(p: Pin): Sel {
    SelAt(R_PIO_BASE + (p.port - 12) * PIOC_OFFSET, p.num)
  }

  function SelAt(bank: int, num: u8): Sel {
    Sel(bank + num / 8 * 4, bank + 0x24 + num / 16 * 4, bank + 0x14 + num / 16 * 4, bank + 0x10)
  }

  /** The bank a pin belongs to. */
  function HomeSel(p: Pin): Sel {
    if p.port < 12 then PioSel(p) else RPioSel(p)
  }

  predicate OnChip(a: int) {
    PIO_BASE <= a < PIO_BASE + 0x3000 || R_PIO_BASE <= a < R_PIO_BASE + 0x3000
  }

  predicate SameGroup(p: Pin, q: Pin) {
    p.port == q.port && p.num / 16 == q.num / 16
  }

  predicate SameFunc(p: Pin, q: Pin) {
    p.port == q.port && p.num / 8 == q.num / 8
  }

  // ------------------------------------------------------------- immediate update

  /** Read-modify-write of one field: `width` bits at bit `shift`. */
  datatype FieldWrite = FieldWrite(addr: int, shift: int, width: int, value: int)

  predicate FieldOk(shift: int, width: int) {
    (width == 1 || width == 2 || width == 4) && 0 <= shift && shift + width <= 32
  }

  predicate WriteOk(w: FieldWrite) {
    FieldOk(w.shift, w.width) && 0 <= w.value < 16
      && (w.width == 2 ==> w.value < 4) && (w.width == 1 ==> w.value < 2)
  }

  /** w << s */
  function Shl(w: word, s: int): word
    requires 0 <= s < 32
    decreases s
  {
    if s == 0 then w else Shl(w, s - 1) << 1
  }

  /** v as a word, for the at most four bits of a field. */
  function Bits4(v: int): word
    requires 0 <= v < 16
  {
    match v
    case 0 => 0 case 1 => 1 case 2 => 2 case 3 => 3 case 4 => 4 case 5 => 5 case 6 => 6 case 7 => 7
    case 8 => 8 case 9 => 9 case 10 => 10 case 11 => 11 case 12 => 12 case 13 => 13 case 14 => 14 case _ => 15
  }

  function Ones(width: int): word {
    if width == 1 then 1 else if width == 2 then 3 else PIO_CFG_MASK
  }

  /** A field of the word cleared and set. */
  function Update(w: word, shift: int, width: int, value: int): word
    requires FieldOk(shift, width) && 0 <= value < 16
  {
    SetMasked(w, Shl(Ones(width), shift), Shl(Bits4(value), shift))
  }

  function SetMasked(w: word, mask: word, bits: word): word {
    (w & !mask) | bits
  }

  datatype Kind = Func | Pull | Drv | Data

  function Addr(sel: Sel, kind: Kind): int {
    match kind
    case Func => sel.cfg
    case Pull => sel.pull
    case Drv => sel.drv
    case Data => sel.data
  }

  function Shift(kind: Kind, p: Pin): int {
    match kind
    case Func => p.num % 8 * 4
    case Pull => p.num % 16 * 2
    case Drv => p.num % 16 * 2
    case Data => p.num
  }

  function Width(kind: Kind): int {
    match kind
    case Func => 4
    case Pull => 2
    case Drv => 2
    case Data => 1
  }

  /** The new value of the field, the low bits of the entry's value in two's complement; the
      function field is cleared when set_gpio is 0. */
  function Setting(kind: Kind, p: Pin, setGpio: bool): int {
    match kind
    case Func => if setGpio then p.mulSel % 16 else 0
    case Pull => p.pull % 4
    case Drv => p.drv % 4
    case Data => p.data % 2
  }

  /** Whether an entry sets the field; negative values mean "leave alone", except for the
      function field of the first entry. */
  predicate Sets(kind: Kind, p: Pin, first: bool) {
    match kind
    case Func => first || p.mulSel >= 0
    case Pull => p.pull >= 0
    case Drv => p.drv >= 0
    case Data => p.mulSel == 1 && p.data >= 0
  }

  function FieldWrites(kind: Kind, p: Pin, sel: Sel, setGpio: bool, first: bool): seq<FieldWrite> {
    if Sets(kind, p, first) then [FieldWrite(Addr(sel, kind), Shift(kind, p), Width(kind), Setting(kind, p, setGpio))] else []
  }

  /** The fields one pin entry sets, at the registers sel. */
  function Writes(p: Pin, sel: Sel, setGpio: bool, first: bool): seq<FieldWrite> {
    FieldWrites(Func, p, sel, setGpio, first) + FieldWrites(Pull, p, sel, setGpio, first) +
    FieldWrites(Drv, p, sel, setGpio, first) + FieldWrites(Data, p, sel, setGpio, first)
  }

  type Registers = map<int, word>

  predicate Mapped(regs: Registers, ws: seq<FieldWrite>) {
    forall k :: 0 <= k < |ws| ==> ws[k].addr in regs && WriteOk(ws[k])
  }

  function WriteField(regs: Registers, w: FieldWrite): Registers
    requires w.addr in regs && WriteOk(w)
  {
    regs[w.addr := Update(regs[w.addr], w.shift, w.width, w.value)]
  }

  /** Every field written at once, in order. */
  function Apply(regs: Registers, ws: seq<FieldWrite>): (r: Registers)
    requires Mapped(regs, ws)
    ensures r.Keys == regs.Keys
    decreases |ws|
  {
    if ws == [] then regs else
      assert ws[0].addr in regs && WriteOk(ws[0]);
      assert forall k :: 0 <= k < |ws[1..]| ==> ws[1..][k] == ws[k + 1];
      Apply(WriteField(regs, ws[0]), ws[1..])
  }

  // ------------------------------------------------------------- the pin list

  /** Leading entries with port 0 are skipped; the next one ends the list. */
  function SkipUnused(pins: seq<Pin>): (r: seq<Pin>)
    ensures r != [] ==> r[0].port != 0
    ensures r == [] <==> forall k :: 0 <= k < |pins| ==> pins[k].port == 0
    decreases |pins|
  {
    if pins == [] || pins[0].port != 0 then pins else SkipUnused(pins[1..])
  }

  function UpToUnused(pins: seq<Pin>): (r: seq<Pin>)
    ensures r <= pins
    ensures forall k :: 0 <= k < |r| ==> r[k].port != 0
    ensures |r| < |pins| ==> pins[|r|].port == 0
    decreases |pins|
  {
    if pins == [] || pins[0].port == 0 then [] else [pins[0]] + UpToUnused(pins[1..])
  }

  function Active(pins: seq<Pin>): seq<Pin> {
    UpToUnused(SkipUnused(pins))
  }

  /** The registers the code uses for entry k: the bank is chosen by port number for the first
      entry only, and the R_PIO addresses are kept until a group or function change. */
  function CodeSel(act: seq<Pin>, k: nat): Sel
    requires k < |act|
    decreases k
  {
    if k == 0 then HomeSel(act[0])
    else if !SameGroup(act[k - 1], act[k]) then PioSel(act[k])
    else if !SameFunc(act[k - 1], act[k]) then CodeSel(act, k - 1).(cfg := PioSel(act[k]).cfg)
    else CodeSel(act, k - 1)
  }

  function AllWrites(act: seq<Pin>, n: nat, setGpio: bool): seq<FieldWrite>
    requires n <= |act|
    decreases n
  {
    if n == 0 then [] else AllWrites(act, n - 1, setGpio) + Writes(act[n - 1], CodeSel(act, n - 1), setGpio, n == 1)
  }

  predicate Usable(act: seq<Pin>) {
    forall k :: 0 <= k < |act| ==> act[k].port != 0 && act[k].num < 32
  }

  predicate Distinct(s: Sel) {
    s.cfg != s.pull && s.cfg != s.drv && s.cfg != s.data && s.pull != s.drv && s.pull != s.data && s.drv != s.data
  }

  /** Pins that share a group or a function register. */
  lemma SameSels(p: Pin, q: Pin)
    ensures SameFunc(p, q) ==> SameGroup(p, q) && PioSel(q) == PioSel(p) && RPioSel(q) == RPioSel(p)
    ensures SameGroup(p, q) ==> p.port == q.port
    ensures SameGroup(p, q) ==>
      PioSel(q) == PioSel(p).(cfg := PioSel(q).cfg) && RPioSel(q) == RPioSel(p).(cfg := RPioSel(q).cfg)
  {
  }

  lemma SelsDistinct(p: Pin)
    requires p.port != 0 && p.num < 32
    ensures Distinct(PioSel(p))
    ensures p.port >= 12 ==>
      Distinct(RPioSel(p)) && Distinct(PioSel(p).(cfg := RPioSel(p).cfg)) && Distinct(RPioSel(p).(cfg := PioSel(p).cfg))
  {
  }

  /** The registers used for entry k are its own in one of the two banks. */
  lemma {:induction false} CodeSelFits(act: seq<Pin>, k: nat)
    requires Usable(act) && k < |act|
    ensures var s, p := CodeSel(act, k), act[k];
      && (s.cfg == PioSel(p).cfg || (p.port >= 12 && s.cfg == RPioSel(p).cfg))
      && (s == PioSel(p).(cfg := s.cfg) || (p.port >= 12 && s == RPioSel(p).(cfg := s.cfg)))
    ensures Distinct(CodeSel(act, k))
    decreases k
  {
    hide PioSel, RPioSel, Distinct, SameFunc, SameGroup;
    SelsDistinct(act[k]);
    if k > 0 {
      CodeSelFits(act, k - 1);
      SameSels(act[k - 1], act[k]);
    }
  }

  // ------------------------------------------------------------- the shadow registers

  /** tmp_group_*_addr, tmp_group_*_data and data_change. */
  datatype Cache = Cache(sel: Sel, func: word, pull: word, drv: word, data: word, changed: bool)

  predicate Backed(regs: Registers, c: Cache) {
    && c.sel.cfg in regs && c.sel.pull in regs && c.sel.drv in regs && c.sel.data in regs
    && Distinct(c.sel)
    && (!c.changed ==> c.data == regs[c.sel.data])
  }

  /** What the register file would be if the shadows were written back now. */
  function Flushed(regs: Registers, c: Cache): Registers {
    var r := regs[c.sel.cfg := c.func][c.sel.pull := c.pull][c.sel.drv := c.drv];
    if c.changed then r[c.sel.data := c.data] else r
  }

  /** The shadows after one field write. */
  function StageField(c: Cache, w: FieldWrite): Cache
    requires WriteOk(w)
  {
    StageValue(c, w.addr, Update(Shadow(c, w.addr), w.shift, w.width, w.value))
  }

  lemma StageFieldThrough(regs: Registers, c: Cache, w: FieldWrite) returns (c1: Cache)
    requires Backed(regs, c) && WriteOk(w)
    requires w.addr == c.sel.cfg || w.addr == c.sel.pull || w.addr == c.sel.drv || w.addr == c.sel.data
    ensures c1 == StageField(c, w) && c1.sel == c.sel && Backed(regs, c1)
    ensures w.addr in Flushed(regs, c) && WriteField(Flushed(regs, c), w) == Flushed(regs, c1)
  {
    var was := Flushed(regs, c)[w.addr];
    StageValueThrough(regs, c, w.addr, was, Update(was, w.shift, w.width, w.value));
    c1 := StageField(c, w);
  }

  /** The shadows with the one for register a replaced by r. */
  function StageValue(c: Cache, a: int, r: word): Cache {
    if a == c.sel.cfg then c.(func := r)
    else if a == c.sel.pull then c.(pull := r)
    else if a == c.sel.drv then c.(drv := r)
    else if a == c.sel.data then c.(data := r, changed := true)
    else c
  }

  function Shadow(c: Cache, a: int): word {
    if a == c.sel.cfg then c.func else if a == c.sel.pull then c.pull else if a == c.sel.drv then c.drv else c.data
  }

  lemma StageValueThrough(regs: Registers, c: Cache, a: int, was: word, r: word)
    requires Backed(regs, c)
    requires a == c.sel.cfg || a == c.sel.pull || a == c.sel.drv || a == c.sel.data
    requires was == Flushed(regs, c)[a]
    ensures was == Shadow(c, a) && Backed(regs, StageValue(c, a, r))
    ensures Flushed(regs, c)[a := r] == Flushed(regs, StageValue(c, a, r))
  {
  }

  ghost predicate AllOk(ws: seq<FieldWrite>) {
    forall k :: 0 <= k < |ws| ==> WriteOk(ws[k])
  }

  lemma AllOkTail(ws: seq<FieldWrite>)
    requires AllOk(ws) && ws != []
    ensures WriteOk(ws[0]) && AllOk(ws[1..])
  {
  }

  ghost function Stage(c: Cache, ws: seq<FieldWrite>): (r: Cache)
    requires AllOk(ws)
    ensures r.sel == c.sel
    decreases |ws|
  {
    if ws == [] then c else
      AllOkTail(ws);
      Stage(StageField(c, ws[0]), ws[1..])
  }

  ghost predicate Through(c: Cache, ws: seq<FieldWrite>) {
    AllOk(ws) && forall k :: 0 <= k < |ws| ==>
      ws[k].addr == c.sel.cfg || ws[k].addr == c.sel.pull || ws[k].addr == c.sel.drv || ws[k].addr == c.sel.data
  }

  /** Writing fields through the shadows commutes with writing them back. */
  lemma {:induction false} StageThrough(regs: Registers, c: Cache, ws: seq<FieldWrite>)
    requires Backed(regs, c) && Through(c, ws)
    ensures Backed(regs, Stage(c, ws)) && Mapped(Flushed(regs, c), ws)
    ensures Apply(Flushed(regs, c), ws) == Flushed(regs, Stage(c, ws))
    decreases |ws|
  {
    if ws != [] {
      AllOkTail(ws);
      var c1 := StageFieldThrough(regs, c, ws[0]);
      assert forall k :: 0 <= k < |ws[1..]| ==> ws[1..][k] == ws[k + 1];
      StageThrough(regs, c1, ws[1..]);
    }
  }

  function Load(regs: Registers, sel: Sel): Cache
    requires sel.cfg in regs && sel.pull in regs && sel.drv in regs && sel.data in regs
  {
    Cache(sel, regs[sel.cfg], regs[sel.pull], regs[sel.drv], regs[sel.data], false)
  }

  lemma LoadIsClean(regs: Registers, sel: Sel)
    requires sel.cfg in regs && sel.pull in regs && sel.drv in regs && sel.data in regs
    ensures Flushed(regs, Load(regs, sel)) == regs
  {
    var r := regs;
    assert r[sel.cfg := r[sel.cfg]] == r && r[sel.pull := r[sel.pull]] == r && r[sel.drv := r[sel.drv]] == r;
  }

  /** Only the function register is written back and exchanged. */
  lemma SwapFunc(regs: Registers, c: Cache, cfg: int)
    requires Backed(regs, c) && cfg in regs && Distinct(c.sel.(cfg := cfg))
    ensures var regs1 := regs[c.sel.cfg := c.func];
      var c1 := c.(sel := c.sel.(cfg := cfg), func := regs1[cfg]);
      Backed(regs1, c1) && Flushed(regs1, c1) == Flushed(regs, c)
  {
    var regs1 := regs[c.sel.cfg := c.func];
    assert regs1[cfg := regs1[cfg]] == regs1;
  }

  // ------------------------------------------------------------- the code

  lemma AllOkAppend(a: seq<FieldWrite>, b: seq<FieldWrite>)
    requires AllOk(a) && AllOk(b)
    ensures AllOk(a + b)
  {
  }

  lemma {:induction false} StageAppend(c: Cache, a: seq<FieldWrite>, b: seq<FieldWrite>)
    requires AllOk(a) && AllOk(b)
    ensures AllOk(a + b) && Stage(c, a + b) == Stage(Stage(c, a), b)
    decreases |a|
  {
    AllOkAppend(a, b);
    if a == [] {
      assert a + b == b;
    } else {
      AllOkTail(a);
      assert (a + b)[1..] == a[1..] + b;
      StageAppend(StageField(c, a[0]), a[1..], b);
    }
  }

  /** The clear-and-set of one field in a shadow register. */
  method ClearSet(data: word, mask: word, shift: int, ghost width: int, value: int) returns (r: word)
    requires FieldOk(shift, width) && mask == Ones(width) && 0 <= value < 16
    ensures r == Update(data, shift, width, value)
  {
    var clear, bits := Shl(mask, shift), Shl(Bits4(value), shift);
    r := data & !clear;
    r := r | bits;
    assert r == SetMasked(data, clear, bits);
  }

  lemma FieldWritesOk(kind: Kind, p: Pin, sel: Sel, setGpio: bool, first: bool)
    requires p.num < 32
    ensures AllOk(FieldWrites(kind, p, sel, setGpio, first))
  {
  }

  lemma StageSingle(c: Cache, w: FieldWrite)
    requires WriteOk(w)
    ensures AllOk([w]) && Stage(c, [w]) == StageField(c, w)
  {
    assert [w][1..] == [];
  }

  lemma StageNone(c: Cache)
    ensures AllOk([]) && Stage(c, []) == c
  {
  }

  /** "update funtion": for the first entry the field is rewritten whatever mul_sel is; with
      set_gpio 0 it is only cleared. */
  method UpdateFunc(c0: Cache, p: Pin, setGpio: bool, first: bool) returns (c: Cache)
    requires p.num < 32 && Distinct(c0.sel)
    ensures AllOk(FieldWrites(Func, p, c0.sel, setGpio, first)) && c == Stage(c0, FieldWrites(Func, p, c0.sel, setGpio, first))
  {
    c := c0;
    StageNone(c0);
    var tmpVal := (p.num - p.num / 8 * 8) * 4;
    if first || p.mulSel >= 0 {
      var func := ClearSet(c.func, PIO_CFG_MASK, tmpVal, 4, if setGpio then p.mulSel % 16 else 0);
      c := c.(func := func);
      StageSingle(c0, FieldWrite(c0.sel.cfg, tmpVal, 4, if setGpio then p.mulSel % 16 else 0));
    }
  }

  method UpdatePull(c0: Cache, p: Pin, ghost setGpio: bool, ghost first: bool) returns (c: Cache)
    requires p.num < 32 && Distinct(c0.sel)
    ensures AllOk(FieldWrites(Pull, p, c0.sel, setGpio, first)) && c == Stage(c0, FieldWrites(Pull, p, c0.sel, setGpio, first))
  {
    c := c0;
    StageNone(c0);
    var tmpVal := (p.num - p.num / 16 * 16) * 2;
    if p.pull >= 0 {
      var pull := ClearSet(c.pull, 3, tmpVal, 2, p.pull % 4);
      c := c.(pull := pull);
      StageSingle(c0, FieldWrite(c0.sel.pull, tmpVal, 2, p.pull % 4));
    }
  }

  method UpdateDriverLevel(c0: Cache, p: Pin, ghost setGpio: bool, ghost first: bool) returns (c: Cache)
    requires p.num < 32 && Distinct(c0.sel)
    ensures AllOk(FieldWrites(Drv, p, c0.sel, setGpio, first)) && c == Stage(c0, FieldWrites(Drv, p, c0.sel, setGpio, first))
  {
    c := c0;
    StageNone(c0);
    var tmpVal := (p.num - p.num / 16 * 16) * 2;
    if p.drv >= 0 {
      var drv := ClearSet(c.drv, 3, tmpVal, 2, p.drv % 4);
      c := c.(drv := drv);
      StageSingle(c0, FieldWrite(c0.sel.drv, tmpVal, 2, p.drv % 4));
    }
  }

  method UpdateData(c0: Cache, p: Pin, ghost setGpio: bool, ghost first: bool) returns (c: Cache)
    requires p.num < 32 && Distinct(c0.sel)
    ensures AllOk(FieldWrites(Data, p, c0.sel, setGpio, first)) && c == Stage(c0, FieldWrites(Data, p, c0.sel, setGpio, first))
  {
    c := c0;
    StageNone(c0);
    if p.mulSel == 1 {
      if p.data >= 0 {
        var data := ClearSet(c.data, 1, p.num, 1, p.data % 2);
        c := c.(data := data, changed := true);
        StageSingle(c0, FieldWrite(c0.sel.data, p.num, 1, p.data % 2));
      }
    }
  }

  /** The body of both loops: one pin entry into the shadow registers. */
  method StagePin(c0: Cache, p: Pin, setGpio: bool, first: bool) returns (c: Cache)
    requires p.num < 32 && Distinct(c0.sel)
    ensures AllOk(Writes(p, c0.sel, setGpio, first)) && c == Stage(c0, Writes(p, c0.sel, setGpio, first))
  {
    c := UpdateFunc(c0, p, setGpio, first);
    c := UpdatePull(c, p, setGpio, first);
    c := UpdateDriverLevel(c, p, setGpio, first);
    c := UpdateData(c, p, setGpio, first);
    ghost var f, u := FieldWrites(Func, p, c0.sel, setGpio, first), FieldWrites(Pull, p, c0.sel, setGpio, first);
    ghost var d, t := FieldWrites(Drv, p, c0.sel, setGpio, first), FieldWrites(Data, p, c0.sel, setGpio, first);
    StageAppend(c0, f, u);
    StageAppend(c0, f + u, d);
    StageAppend(c0, f + u + d, t);
  }

  lemma ApplyAppend(regs: Registers, a: seq<FieldWrite>, b: seq<FieldWrite>)
    requires Mapped(regs, a) && Mapped(regs, b)
    ensures Mapped(regs, a + b) && Apply(regs, a + b) == Apply(Apply(regs, a), b)
    decreases |a|
  {
    if a == [] {
      assert a + b == b;
    } else {
      assert (a + b)[1..] == a[1..] + b;
      assert forall k :: 0 <= k < |a[1..]| ==> a[1..][k] == a[k + 1];
      ApplyAppend(WriteField(regs, a[0]), a[1..], b);
    }
  }

  lemma WritesThrough(p: Pin, c: Cache, setGpio: bool, first: bool)
    requires p.num < 32
    ensures Through(c, Writes(p, c.sel, setGpio, first))
  {
    WritesOk(p, c.sel, setGpio, first);
  }

  lemma WritesOk(p: Pin, sel: Sel, setGpio: bool, first: bool)
    requires p.num < 32
    ensures AllOk(Writes(p, sel, setGpio, first))
  {
    var f, u := FieldWrites(Func, p, sel, setGpio, first), FieldWrites(Pull, p, sel, setGpio, first);
    var d, t := FieldWrites(Drv, p, sel, setGpio, first), FieldWrites(Data, p, sel, setGpio, first);
    FieldWritesOk(Func, p, sel, setGpio, first);
    FieldWritesOk(Pull, p, sel, setGpio, first);
    FieldWritesOk(Drv, p, sel, setGpio, first);
    FieldWritesOk(Data, p, sel, setGpio, first);
    AllOkAppend(f, u);
    AllOkAppend(f + u, d);
    AllOkAppend(f + u + d, t);
  }

  ghost predicate AllOnChip(regs: Registers) {
    forall a :: OnChip(a) ==> a in regs
  }

  lemma MappedAppend(regs: Registers, a: seq<FieldWrite>, b: seq<FieldWrite>)
    requires Mapped(regs, a) && Mapped(regs, b)
    ensures Mapped(regs, a + b)
  {
  }

  lemma WritesMapped(regs: Registers, p: Pin, c: Cache, setGpio: bool, first: bool)
    requires p.num < 32
    requires c.sel.cfg in regs && c.sel.pull in regs && c.sel.drv in regs && c.sel.data in regs
    ensures Mapped(regs, Writes(p, c.sel, setGpio, first))
  {
    WritesThrough(p, c, setGpio, first);
  }

  lemma {:induction false} AllWritesMapped(regs: Registers, act: seq<Pin>, n: nat, setGpio: bool)
    requires AllOnChip(regs) && Usable(act) && n <= |act|
    ensures Mapped(regs, AllWrites(act, n, setGpio))
    decreases n
  {
    if n > 0 {
      AllWritesMapped(regs, act, n - 1, setGpio);
      SelOnChip(act, n - 1);
      var c := Cache(CodeSel(act, n - 1), 0, 0, 0, 0, false);
      WritesMapped(regs, act[n - 1], c, setGpio, n == 1);
      MappedAppend(regs, AllWrites(act, n - 1, setGpio), Writes(act[n - 1], CodeSel(act, n - 1), setGpio, n == 1));
    }
  }

  lemma SelOnChip(act: seq<Pin>, k: nat)
    requires Usable(act) && k < |act|
    ensures var s := CodeSel(act, k); OnChip(s.cfg) && OnChip(s.pull) && OnChip(s.drv) && OnChip(s.data)
  {
    CodeSelFits(act, k);
  }

  class PinController {
    var regs: Registers

    /** Writing the shadows back now would give the register file `due`. */
    ghost predicate Holds(c: Cache, due: Registers)
      reads this
    {
      Backed(regs, c) && Flushed(regs, c) == due
    }

    method WriteBack(c: Cache)
      requires Backed(regs, c)
      modifies this
      ensures regs == Flushed(old(regs), c)
    {
      regs := regs[c.sel.cfg := c.func];
      regs := regs[c.sel.pull := c.pull];
      regs := regs[c.sel.drv := c.drv];
      if c.changed {
        regs := regs[c.sel.data := c.data];
      }
    }

    /** Writing back and reading again when the next entry is in another register group, or only
        the function register when just that changes. */
    method Follow(c0: Cache, prev: Pin, p: Pin, ghost due: Registers, ghost act: seq<Pin>, ghost n: nat) returns (c: Cache)
      requires AllOnChip(due) && Usable(act) && 0 < n < |act| && prev == act[n - 1] && p == act[n]
      requires c0.sel == CodeSel(act, n - 1) && Holds(c0, due)
      modifies this
      ensures c.sel == CodeSel(act, n) && Holds(c, due)
    {
      c := c0;
      CodeSelFits(act, n);
      SelOnChip(act, n);
      if p.num / 16 != prev.num / 16 || p.port != prev.port {
        WriteBack(c);
        LoadIsClean(regs, PioSel(p));
        c := Load(regs, PioSel(p));
      } else if prev.num / 8 != p.num / 8 {
        SwapFunc(regs, c, PioSel(p).cfg);
        regs := regs[c.sel.cfg := c.func];
        c := c.(sel := c.sel.(cfg := PioSel(p).cfg), func := regs[PioSel(p).cfg]);
      }
    }

    /** Entry n goes into the shadows; the registers themselves do not change. */
    lemma Staged(c: Cache, start: Registers, act: seq<Pin>, n: nat, setGpio: bool)
      requires AllOnChip(start) && Usable(act) && n < |act|
      requires Mapped(start, AllWrites(act, n, setGpio)) && Mapped(start, AllWrites(act, n + 1, setGpio))
      requires c.sel == CodeSel(act, n) && Holds(c, Apply(start, AllWrites(act, n, setGpio)))
      ensures AllOk(Writes(act[n], c.sel, setGpio, n == 0))
      ensures Holds(Stage(c, Writes(act[n], c.sel, setGpio, n == 0)), Apply(start, AllWrites(act, n + 1, setGpio)))
    {
      var ws := Writes(act[n], c.sel, setGpio, n == 0);
      WritesThrough(act[n], c, setGpio, n == 0);
      StageThrough(regs, c, ws);
      MappedTail(start, AllWrites(act, n, setGpio), ws);
      ApplyAppend(start, AllWrites(act, n, setGpio), ws);
    }

    /** boot_set_gpio */
    method BootSetGpio(list: seq<Pin>, setGpio: bool) returns (ret: int)
      requires AllOnChip(regs) && ListOk(list)
      modifies this
      ensures ret == if forall k :: 0 <= k < |list| ==> list[k].port == 0 then -1 else 0
      ensures regs == Configured(old(regs), list, setGpio)
    {
      hide Partial, CodeSel, Backed, Flushed, AllOnChip, Usable, Active;
      ghost var start, act := regs, Active(list);
      ActiveUsable(list);
      var firstPort := FirstUsed(list);
      if firstPort >= |list| {
        NothingActive(start, list, setGpio);
        return -1;
      }
      ActiveAt(list, firstPort, 0);
      var c := Begin(list[firstPort], act, setGpio);
      var i := firstPort + 1;
      ghost var n: nat := 1;
      while i < |list|
        invariant i == firstPort + n <= |list| && 0 < n <= |act|
        invariant act[n - 1] == list[i - 1]
        invariant InStep(c, start, act, n, setGpio)
      {
        ActiveAt(list, firstPort, n);
        if list[i].port == 0 {
          break;
        }
        c := Continue(c, list[i - 1], list[i], start, act, n, setGpio);
        i, n := i + 1, n + 1;
      }
      ActiveEnds(list, firstPort, n);
      WriteBack(c);
      return 0;
    }

    /** The shadows belong to the registers of entry n - 1 and stand for the first n entries. */
    ghost predicate InStep(c: Cache, start: Registers, act: seq<Pin>, n: nat, setGpio: bool)
      requires AllOnChip(start) && Usable(act) && 0 < n <= |act|
      reads this
    {
      c.sel == CodeSel(act, n - 1) && Holds(c, Partial(start, act, n, setGpio))
    }

    method Begin(p: Pin, ghost act: seq<Pin>, setGpio: bool) returns (c: Cache)
      requires AllOnChip(regs) && Usable(act) && act != [] && p == act[0]
      ensures InStep(c, regs, act, 1, setGpio)
    {
      CodeSelFits(act, 0);
      SelOnChip(act, 0);
      var sel := if p.port < 12 then PioSel(p) else RPioSel(p);
      LoadIsClean(regs, sel);
      c := Load(regs, sel);
      AllWritesMapped(regs, act, 1, setGpio);
      Staged(c, regs, act, 0, setGpio);
      c := StagePin(c, p, setGpio, true);
    }

    method Continue(c0: Cache, prev: Pin, p: Pin, ghost start: Registers, ghost act: seq<Pin>, ghost n: nat, setGpio: bool)
        returns (c: Cache)
      requires AllOnChip(start) && Usable(act) && 0 < n < |act| && prev == act[n - 1] && p == act[n]
      requires InStep(c0, start, act, n, setGpio)
      modifies this
      ensures InStep(c, start, act, n + 1, setGpio)
    {
      c := Follow(c0, prev, p, Partial(start, act, n, setGpio), act, n);
      CodeSelFits(act, n);
      AllWritesMapped(start, act, n, setGpio);
      AllWritesMapped(start, act, n + 1, setGpio);
      Staged(c, start, act, n, setGpio);
      c := StagePin(c, p, setGpio, false);
    }

    /** The search for the first entry that names a port. */
    method FirstUsed(list: seq<Pin>) returns (firstPort: nat)
      ensures firstPort <= |list| && SkipUnused(list) == list[firstPort..]
    {
      firstPort := 0;
      while firstPort < |list| && list[firstPort].port == 0
        invariant firstPort <= |list|
        invariant SkipUnused(list) == SkipUnused(list[firstPort..])
      {
        assert list[firstPort..][1..] == list[firstPort + 1..];
        firstPort := firstPort + 1;
      }
    }
  }

  predicate ListOk(list: seq<Pin>) {
    forall k :: 0 <= k < |list| && list[k].port != 0 ==> list[k].num < 32
  }

  lemma {:induction false} SkipKeeps(list: seq<Pin>)
    requires ListOk(list)
    ensures ListOk(SkipUnused(list))
    decreases |list|
  {
    if list != [] && list[0].port == 0 {
      assert forall k :: 0 <= k < |list[1..]| ==> list[1..][k] == list[k + 1];
      SkipKeeps(list[1..]);
    }
  }

  lemma ActiveUsable(list: seq<Pin>)
    requires ListOk(list)
    ensures Usable(Active(list))
  {
    SkipKeeps(list);
  }

  /** Position n of the active entries is position first + n of the list. */
  lemma ActiveAt(list: seq<Pin>, first: nat, n: nat)
    requires first + n < |list| && SkipUnused(list) == list[first..] && n <= |Active(list)|
    ensures if list[first + n].port == 0 then n == 0 || n == |Active(list)|
      else n < |Active(list)| && Active(list)[n] == list[first + n]
    ensures n == 0 ==> Active(list) != [] && list[first].port != 0
  {
    assert list[first..][n] == list[first + n];
  }

  lemma ActiveEnds(list: seq<Pin>, first: nat, n: nat)
    requires first + n <= |list| && SkipUnused(list) == list[first..] && n <= |Active(list)|
    requires first + n == |list| || n == |Active(list)|
    ensures n == |Active(list)|
  {
  }

  /** The registers after the first n entries, each field read, modified and written at once. */
  ghost function Partial(start: Registers, act: seq<Pin>, n: nat, setGpio: bool): Registers
    requires AllOnChip(start) && Usable(act) && n <= |act|
  {
    AllWritesMapped(start, act, n, setGpio);
    Apply(start, AllWrites(act, n, setGpio))
  }

  ghost function Configured(start: Registers, list: seq<Pin>, setGpio: bool): Registers
    requires AllOnChip(start) && ListOk(list)
  {
    ActiveUsable(list);
    Partial(start, Active(list), |Active(list)|, setGpio)
  }

  lemma NothingActive(start: Registers, list: seq<Pin>, setGpio: bool)
    requires AllOnChip(start) && ListOk(list) && SkipUnused(list) == []
    ensures Configured(start, list, setGpio) == start && forall k :: 0 <= k < |list| ==> list[k].port == 0
  {
    NoneUsed(list);
  }

  lemma {:induction false} NoneUsed(list: seq<Pin>)
    requires SkipUnused(list) == []
    ensures forall k :: 0 <= k < |list| ==> list[k].port == 0
    decreases |list|
  {
    if list != [] {
      NoneUsed(list[1..]);
      assert forall k :: 0 < k < |list| ==> list[k] == list[1..][k - 1];
    }
  }

  lemma MappedTail(regs: Registers, a: seq<FieldWrite>, b: seq<FieldWrite>)
    requires Mapped(regs, a + b)
    ensures Mapped(regs, b)
  {
    assert forall k :: 0 <= k < |b| ==> b[k] == (a + b)[|a| + k];
  }

  // ------------------------------------------------------------- what the registers hold

  /** Entry k and all before it address the same function register as the first entry. */
  predicate LeadRun(act: seq<Pin>, k: nat)
    requires k < |act|
  {
    forall j :: 0 <= j <= k ==> SameFunc(act[j], act[0])
  }

  lemma {:induction false} CodeSelIs(act: seq<Pin>, k: nat)
    requires Usable(act) && k < |act|
    ensures if LeadRun(act, k) then CodeSel(act, k) == HomeSel(act[k]) else CodeSel(act, k).cfg == PioSel(act[k]).cfg
    ensures act[k].port < 12 ==> CodeSel(act, k) == HomeSel(act[k])
    decreases k
  {
    CodeSelFits(act, k);
    hide PioSel, RPioSel, Distinct, SameGroup;
    if k > 0 {
      CodeSelIs(act, k - 1);
      SameSels(act[k - 1], act[k]);
      if LeadRun(act, k - 1) {
        assert SameFunc(act[k - 1], act[0]);
      }
    }
  }

  /** Every entry is configured in its own bank exactly when those of ports 12 and up come
      first and all share one function register. */
  lemma HomeBankIff(act: seq<Pin>)
    requires Usable(act)
    ensures (forall k :: 0 <= k < |act| ==> CodeSel(act, k) == HomeSel(act[k])) <==>
      (forall k :: 0 <= k < |act| ==> act[k].port < 12 || LeadRun(act, k))
  {
    forall k | 0 <= k < |act|
      ensures CodeSel(act, k) == HomeSel(act[k]) <==> act[k].port < 12 || LeadRun(act, k)
    {
      CodeSelIs(act, k);
    }
  }
}
