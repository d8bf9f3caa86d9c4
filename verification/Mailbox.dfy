/** The host-target mailbox (spike_interface/spike_htif.c, lines 61-151, with `frontend_syscall`): every access of
    the one target hart to `tohost`, `fromhost`, `htif_console_buf` and `magic_mem` is a step, and host steps may
    come between any two of them. */
module Mailbox {
  import opened HtifWords

  // ---- what is posted ----

  /** A doubleword of the mailbox or of an argument block. */
  datatype Cell = Cell(bits: bv64)

  const ZERO: Cell := Cell(0)

  datatype Command = Command(dev: bv64, cmd: bv64, data: bv64)

  function Decode(w: Cell): Command {
    Command(Dev(w.bits), Cmd(w.bits), Data(w.bits))
  }

  /** A request about to be posted. A console read holds the character that the caller will get. */
  datatype Req = ReadReq(held: int) | WriteReq(c: bv8) | SysReq(args: seq<Cell>)

  /** The command that putchar posts. */
  function Written(c: bv8): Command {
    Command(1, 1, c as bv64)
  }

  function Parts(r: Req, block: Cell): Command {
    match r
    case ReadReq(_) => Command(1, 0, 0)
    case WriteReq(c) => Written(c)
    case SysReq(_) => Command(0, 0, block.bits)
  }

  function Pack(c: Command): Cell {
    Cell(ToHostCmd(c.dev, c.cmd, c.data))
  }

  /** `FROMHOST_DEV(fh) == dev && FROMHOST_CMD(fh) == cmd`. */
  predicate Is(w: Cell, dev: bv64, cmd: bv64) {
    Dev(w.bits) == dev && Cmd(w.bits) == cmd
  }

  predicate IsRead(w: Cell) { w != ZERO && Is(w, 1, 0) }

  predicate IsWrite(w: Cell) { w != ZERO && Is(w, 1, 1) }

  predicate IsSys(w: Cell) { w != ZERO && Is(w, 0, 0) }

  function Char(w: Cell): (c: int)
    ensures 0 <= c < 256
  {
    CharBits(w.bits) as int
  }

  /** The reply to a console read. */
  function CharReply(c: bv8): Cell {
    Pack(Command(1, 0, c as bv64))
  }

  predicate Known(w: Cell) { IsRead(w) || IsWrite(w) || IsSys(w) }

  // ---- the two sides ----

  datatype Call = GetChar | PutChar(c: bv8) | Syscall(args: seq<Cell>)

  /** Where `__check_fromhost` returns to. */
  datatype After = BackToSet(r: Req) | BackToWait(args: seq<Cell>) | BackToGet

  datatype Pc =
    | Idle
    | Fill(args: seq<Cell>, i: nat)       // magic_mem[i] = ...
    | SetTest(r: Req)                     // while (tohost)
    | SetWrite(r: Req)                    // tohost = ...
    | WaitTest(args: seq<Cell>)           // fh = fromhost, in do_tohost_fromhost
    | WaitTake(args: seq<Cell>)           // fromhost = 0, in do_tohost_fromhost
    | CheckTest(k: After)                 // fh = fromhost, in __check_fromhost
    | CheckClear(k: After, fh: Cell)      // fromhost = 0, in __check_fromhost
    | CheckUse(k: After, fh: Cell)        // the assertion and the switch
    | GetRead                             // ch = htif_console_buf
    | GetMark(ch: int)                    // htif_console_buf = -1
    | ReadBack(args: seq<Cell>)           // ret = magic_mem[0]
    | Failed                              // a tripped assertion

  /** The host: system calls and console reads taken but not answered, replies not yet delivered, and the input
      typed so far, of which `consumed` characters have been turned into replies. */
  datatype Host = Host(syscalls: nat, asked: nat, replies: seq<Cell>, typed: seq<bv8>, consumed: nat)

  type Done = (seq<Cell>, Cell)

  /** What has happened: calls made, commands posted and taken, characters that getchar returned, and system calls
      (with their argument block) that the host ran and that `frontend_syscall` returned from. */
  datatype Log = Log(calls: seq<Call>, posted: seq<Command>, taken: seq<Command>, got: seq<int>, ran: seq<Done>, returned: seq<Done>)

  datatype State = State(block: Cell, tohost: Cell, fromhost: Cell, buf: int, magic: seq<Cell>, pc: Pc, host: Host,
                         log: Log)

  /** Static storage starts at zero; `magic_mem` has a nonzero address below 2^48. */
  predicate Addressable(block: Cell) {
    0 < block.bits < 0x1_0000_0000_0000
  }

  predicate Init(s: State) {
    && Addressable(s.block)
    && s.tohost == ZERO && s.fromhost == ZERO && s.buf == 0 && |s.magic| == 8 && s.pc == Idle
    && s.host == Host(0, 0, [], [], 0)
    && s.log == Log([], [], [], [], [], [])
  }

  /** Every address of the argument block has a start state. */
  lemma StartsAnywhere(block: bv64)
    requires 0 < block < 0x1_0000_0000_0000
    ensures Init(State(Cell(block), ZERO, ZERO, 0, seq(8, _ => ZERO), Idle, Host(0, 0, [], [], 0),
                       Log([], [], [], [], [], [])))
  {
  }

  // ---- steps ----

  /** Everything that can happen next; the host's choices are parameters. */
  datatype Step =
    | Start(call: Call)
    | Target
    | Take(ack: Cell)                     // clear tohost; a console write may be acknowledged (0: it is not)
    | Execute(result: Cell, reply: Cell)  // run a system call on its block and queue a nonzero reply
    | Answer                              // queue the next typed character for an outstanding read
    | Type(c: bv8)
    | Deliver                             // fromhost = the oldest reply, when fromhost is 0

  function Do(s: State, step: Step): State {
    match step
    case Start(call) =>
      if s.pc == Idle then s.(pc := Enter(call), log := s.log.(calls := s.log.calls + [call])) else s
    case Target => TargetStep(s)
    case Take(ack) => if s.tohost != ZERO && (ack == ZERO || IsWrite(ack)) then TakeStep(s, ack) else s
    case Execute(result, reply) =>
      if s.host.syscalls > 0 && IsSys(reply) && |s.magic| == 8 then
        s.(magic := s.magic[0 := result],
           host := s.host.(syscalls := s.host.syscalls - 1, replies := s.host.replies + [reply]),
           log := s.log.(ran := s.log.ran + [(s.magic, result)]))
      else s
    case Answer =>
      if s.host.asked > 0 && s.host.consumed < |s.host.typed| then
        var c := s.host.typed[s.host.consumed];
        s.(host := s.host.(asked := s.host.asked - 1, consumed := s.host.consumed + 1,
                           replies := s.host.replies + [CharReply(c)]))
      else s
    case Type(c) => s.(host := s.host.(typed := s.host.typed + [c]))
    case Deliver =>
      if s.fromhost == ZERO && s.host.replies != [] then
        s.(fromhost := s.host.replies[0], host := s.host.(replies := s.host.replies[1..]))
      else s
  }

  function Enter(call: Call): Pc {
    match call
    case GetChar => CheckTest(BackToGet)
    case PutChar(c) => SetTest(WriteReq(c))
    case Syscall(args) => if |args| == 8 then Fill(args, 0) else Idle
  }

  function TakeStep(s: State, ack: Cell): State {
    var w := s.tohost;
    var h := s.host;
    var h' :=
      if IsSys(w) then h.(syscalls := h.syscalls + 1)
      else if IsRead(w) then h.(asked := h.asked + 1)
      else if IsWrite(w) && ack != ZERO then h.(replies := h.replies + [ack])
      else h;
    s.(tohost := ZERO, host := h', log := s.log.(taken := s.log.taken + [Decode(w)]))
  }

  function Resume(k: After): Pc {
    match k
    case BackToSet(r) => SetTest(r)
    case BackToWait(args) => WaitTest(args)
    case BackToGet => GetRead
  }

  function TargetStep(s: State): State {
    match s.pc
    case Idle => s
    case Fill(args, i) =>
      if i < |s.magic| && i < |args| then s.(magic := s.magic[i := args[i]], pc := Fill(args, i + 1))
      else s.(pc := SetTest(SysReq(args)))
    case SetTest(r) => if s.tohost != ZERO then s.(pc := CheckTest(BackToSet(r))) else s.(pc := SetWrite(r))
    case SetWrite(r) => Post(s, r)
    case WaitTest(args) =>
      if s.fromhost == ZERO then s
      else if Is(s.fromhost, 0, 0) then s.(pc := WaitTake(args))
      else s.(pc := CheckTest(BackToWait(args)))
    case WaitTake(args) => s.(fromhost := ZERO, pc := ReadBack(args))
    case CheckTest(k) => if s.fromhost == ZERO then s.(pc := Resume(k)) else s.(pc := CheckClear(k, s.fromhost))
    case CheckClear(k, fh) => s.(fromhost := ZERO, pc := CheckUse(k, fh))
    case CheckUse(k, fh) =>
      if Is(fh, 1, 0) then s.(buf := 1 + Char(fh), pc := Resume(k))
      else if Is(fh, 1, 1) then s.(pc := Resume(k))
      else s.(pc := Failed)
    case GetRead => if s.buf >= 0 then s.(pc := GetMark(s.buf)) else Return(s, s.buf)
    case GetMark(ch) => s.(buf := -1, pc := SetTest(ReadReq(ch)))
    case ReadBack(args) =>
      if s.magic == [] then s
      else s.(pc := Idle, log := s.log.(returned := s.log.returned + [(args, s.magic[0])]))
    case Failed => s
  }

  /** `return ch - 1`; only non-negative results are characters. */
  function Return(s: State, ch: int): State {
    s.(pc := Idle, log := s.log.(got := s.log.got + Shown(ch)))
  }

  function Shown(ch: int): seq<int> {
    if ch >= 1 then [ch - 1] else []
  }

  function Post(s: State, r: Req): State {
    var c := Parts(r, s.block);
    var s' := s.(tohost := Pack(c), log := s.log.(posted := s.log.posted + [c]));
    match r
    case ReadReq(held) => Return(s', held)
    case WriteReq(_) => s'.(pc := Idle)
    case SysReq(args) => s'.(pc := WaitTest(args))
  }

  function Run(s: State, steps: seq<Step>): State {
    if steps == [] then s else Do(Run(s, steps[..|steps| - 1]), steps[|steps| - 1])
  }

  // ---- the invariant ----

  function One(b: bool): nat { if b then 1 else 0 }

  function CountReads(ws: seq<Cell>): nat {
    if ws == [] then 0 else One(IsRead(ws[0])) + CountReads(ws[1..])
  }

  function CountSys(ws: seq<Cell>): nat {
    if ws == [] then 0 else One(IsSys(ws[0])) + CountSys(ws[1..])
  }

  /** The request that the target is in the middle of posting, if any. */
  function Posting(pc: Pc): seq<Req> {
    if pc.SetTest? || pc.SetWrite? then [pc.r]
    else if Checking(pc) && pc.k.BackToSet? then [pc.k.r]
    else []
  }

  predicate Checking(pc: Pc) {
    pc.CheckTest? || pc.CheckClear? || pc.CheckUse?
  }

  /** The argument block of the system call that the target is waiting for, if any. */
  function Awaiting(pc: Pc): seq<seq<Cell>> {
    if pc.WaitTest? || pc.WaitTake? then [pc.args]
    else if Checking(pc) && pc.k.BackToWait? then [pc.k.args]
    else []
  }

  /** The word that the target has taken out of `fromhost` and not yet used. */
  function InHand(pc: Pc): Cell {
    if pc.CheckUse? then pc.fh else ZERO
  }

  function PostingRead(pc: Pc): bool {
    Posting(pc) != [] && Posting(pc)[0].ReadReq?
  }

  /** Console reads under way: being posted, in `tohost`, at the host, queued, in `fromhost`, or in hand. */
  function ReadsOut(s: State): nat {
    One(PostingRead(s.pc)) + One(IsRead(s.tohost)) + s.host.asked + CountReads(s.host.replies)
    + One(IsRead(s.fromhost)) + One(IsRead(InHand(s.pc)))
  }

  /** System calls posted and not yet run, and run but not yet acknowledged to the target. */
  function SysToRun(s: State): nat { One(IsSys(s.tohost)) + s.host.syscalls }

  function SysToAck(s: State): nat { CountSys(s.host.replies) + One(IsSys(s.fromhost)) }

  predicate WordsKnown(s: State) {
    && (s.tohost != ZERO ==> Known(s.tohost))
    && (s.fromhost != ZERO ==> Known(s.fromhost))
    && forall i :: 0 <= i < |s.host.replies| ==> Known(s.host.replies[i])
  }

  /** What the target knows at each point. */
  predicate PointHolds(s: State) {
    match s.pc
    case Fill(args, i) => |args| == |s.magic| == 8 && i <= 8 && s.magic[..i] == args[..i]
    case SetWrite(r) => s.tohost == ZERO
    case WaitTake(_) => IsSys(s.fromhost)
    case CheckTest(k) => k.BackToWait? ==> s.fromhost != ZERO && !IsSys(s.fromhost)
    case CheckClear(_, fh) => fh == s.fromhost && fh != ZERO && !IsSys(fh)
    case CheckUse(_, fh) => Known(fh) && !IsSys(fh)
    case GetMark(ch) => ch == s.buf >= 0
    case Failed => false
    case _ => true
  }

  predicate ReadsBalance(s: State) {
    && s.buf >= -1
    && ReadsOut(s) == One(s.buf == -1)
  }

  predicate SysBalance(s: State) {
    && SysToRun(s) + SysToAck(s) == |Awaiting(s.pc)|
    && |s.magic| == 8
    && s.host.consumed <= |s.host.typed|
  }

  /** The argument block while a system call is under way, and the calls that have returned. */
  predicate BlockHolds(s: State) {
    if Posting(s.pc) != [] && Posting(s.pc)[0].SysReq? then
      s.magic == Posting(s.pc)[0].args && s.log.ran == s.log.returned
    else if Awaiting(s.pc) != [] then
      if SysToRun(s) > 0 then s.magic == Awaiting(s.pc)[0] && s.log.ran == s.log.returned
      else |s.magic| > 0 && s.log.ran == s.log.returned + [(Awaiting(s.pc)[0], s.magic[0])]
    else if s.pc.ReadBack? then
      |s.magic| > 0 && s.log.ran == s.log.returned + [(s.pc.args, s.magic[0])]
    else s.log.ran == s.log.returned
  }

  function CharIn(w: Cell): seq<int> {
    if IsRead(w) then [Char(w)] else []
  }

  function CharsIn(ws: seq<Cell>): seq<int> {
    if ws == [] then [] else CharIn(ws[0]) + CharsIn(ws[1..])
  }

  function Held(pc: Pc): seq<int> {
    if PostingRead(pc) then Shown(Posting(pc)[0].held) else []
  }

  function Ints(cs: seq<bv8>): seq<int> {
    seq(|cs|, i requires 0 <= i < |cs| => cs[i] as int)
  }

  /** The typed characters on their way, oldest first, from the caller back to the host. */
  function OnTheWay(s: State): seq<int> {
    Held(s.pc) + Shown(s.buf) + CharIn(InHand(s.pc)) + CharIn(s.fromhost) + CharsIn(s.host.replies)
  }

  predicate CharsKept(s: State) {
    && s.host.consumed <= |s.host.typed|
    && s.log.got + OnTheWay(s) == Ints(s.host.typed[..s.host.consumed])
  }

  predicate Conserved(s: State) {
    && Addressable(s.block)
    && s.log.posted == s.log.taken + if s.tohost != ZERO then [Decode(s.tohost)] else []
  }

  predicate Inv(s: State) {
    WordsKnown(s) && PointHolds(s) && ReadsBalance(s) && SysBalance(s) && BlockHolds(s) && CharsKept(s) && Conserved(s)
  }

  // ---- every step keeps it ----

  lemma PackFacts(r: Req, block: Cell)
    requires Addressable(block)
    ensures var w := Pack(Parts(r, block));
            && Decode(w) == Parts(r, block) && w != ZERO
            && (IsRead(w) <==> r.ReadReq?) && (IsWrite(w) <==> r.WriteReq?) && (IsSys(w) <==> r.SysReq?)
  {
    var c := Parts(r, block);
    Unpacks(c.dev, c.cmd, c.data);
  }

  lemma OneKind(w: Cell)
    ensures !(IsRead(w) && IsWrite(w)) && !(IsRead(w) && IsSys(w)) && !(IsWrite(w) && IsSys(w))
    ensures w != ZERO && Is(w, 0, 0) ==> IsSys(w)
    ensures !(Is(w, 1, 0) && Is(w, 1, 1))
  {
  }

  lemma CountsOfAppend(ws: seq<Cell>, w: Cell)
    ensures CountReads(ws + [w]) == CountReads(ws) + One(IsRead(w))
    ensures CountSys(ws + [w]) == CountSys(ws) + One(IsSys(w))
    ensures CharsIn(ws + [w]) == CharsIn(ws) + CharIn(w)
  {
    hide IsRead, IsSys, CharIn;
    if ws == [] {
      assert CharsIn([w]) == CharIn(w) + [];
    } else {
      assert (ws + [w])[1..] == ws[1..] + [w];
      CountsOfAppend(ws[1..], w);
    }
  }

  lemma ReplyFacts(c: bv8)
    ensures var w := CharReply(c); IsRead(w) && !IsSys(w) && Known(w) && CharIn(w) == [c as int]
  {
    Unpacks(1, 0, c as bv64);
    CharOfReply(c);
  }

  lemma KeepsFill(s: State)
    requires Inv(s) && s.pc.Fill?
    ensures Inv(TargetStep(s))
  {
    hide Is, Decode, Pack, Char, Addressable, CountReads, CountSys, CharsIn;
    var i, args := s.pc.i, s.pc.args;
    if i < 8 {
      assert s.magic[i := args[i]][..i + 1] == s.magic[..i] + [args[i]] == args[..i + 1];
    } else {
      assert s.magic[..8] == s.magic && args[..8] == args;
    }
  }

  lemma KeepsSetTest(s: State)
    requires Inv(s) && s.pc.SetTest?
    ensures Inv(TargetStep(s))
  {
    hide Is, Decode, Pack, Char, Addressable, CountReads, CountSys, CharsIn;
  }

  lemma KeepsSetWrite(s: State)
    requires Inv(s) && s.pc.SetWrite?
    ensures Inv(TargetStep(s))
  {
    hide Is, Decode, Pack, Char, Addressable, CountReads, CountSys, CharsIn, CharsKept;
    PackFacts(s.pc.r, s.block);
    SetWriteKeepsChars(s);
  }

  lemma SetWriteKeepsChars(s: State)
    requires CharsKept(s) && ReadsBalance(s) && PointHolds(s) && s.pc.SetWrite?
    ensures CharsKept(TargetStep(s))
  {
    hide Is, Decode, Pack, Char, Addressable, CountReads, CountSys, CharsIn, CharIn, CharsKept, ReadsBalance, IsRead;
    hide WordsKnown, Shown;
    HeldMoves(s, TargetStep(s));
  }

  /** A character that moves from the target's hand to the caller is kept. */
  lemma HeldMoves(s: State, s': State)
    requires CharsKept(s) && s'.host == s.host && s'.fromhost == s.fromhost && s'.buf == s.buf
    requires InHand(s'.pc) == InHand(s.pc) && s'.log.got + Held(s'.pc) == s.log.got + Held(s.pc)
    ensures CharsKept(s')
  {
    hide Held, InHand, CharsIn, CharIn, Shown, Ints;
    var rest := Shown(s.buf) + CharIn(InHand(s.pc)) + CharIn(s.fromhost) + CharsIn(s.host.replies);
    assert s.log.got + OnTheWay(s) == (s.log.got + Held(s.pc)) + rest;
    assert s'.log.got + OnTheWay(s') == (s'.log.got + Held(s'.pc)) + rest;
  }

  lemma KeepsWaitTest(s: State)
    requires Inv(s) && s.pc.WaitTest?
    ensures Inv(TargetStep(s))
  {
    hide Is, Decode, Pack, Char, Addressable, CountReads, CountSys, CharsIn;
    OneKind(s.fromhost);
  }

  lemma KeepsWaitTake(s: State)
    requires Inv(s) && s.pc.WaitTake?
    ensures Inv(TargetStep(s))
  {
    hide Is, Decode, Pack, Char, Addressable, CountReads, CountSys, CharsIn;
    OneKind(s.fromhost);
  }

  lemma KeepsCheckTest(s: State)
    requires Inv(s) && s.pc.CheckTest?
    ensures Inv(TargetStep(s))
  {
    hide Is, Decode, Pack, Char, Addressable, CountReads, CountSys, CharsIn, CharIn, CharsKept;
    HeldMoves(s, TargetStep(s));
  }

  lemma KeepsCheckClear(s: State)
    requires Inv(s) && s.pc.CheckClear?
    ensures Inv(TargetStep(s))
  {
    hide Is, Decode, Pack, Char, Addressable, CountReads, CountSys, CharsIn, CharIn, CharsKept;
    NoChar();
    var queue := CharsIn(s.host.replies);
    assert [] + CharIn(s.fromhost) + queue == CharIn(s.fromhost) + [] + queue;
    WordsMove(s, TargetStep(s));
  }

  /** Words that move between the host's queue, `fromhost` and the target's hand keep their characters. */
  lemma WordsMove(s: State, s': State)
    requires CharsKept(s) && s'.log == s.log && s'.buf == s.buf && Held(s'.pc) == Held(s.pc)
    requires s'.host.typed == s.host.typed && s'.host.consumed == s.host.consumed
    requires CharIn(InHand(s'.pc)) + CharIn(s'.fromhost) + CharsIn(s'.host.replies)
             == CharIn(InHand(s.pc)) + CharIn(s.fromhost) + CharsIn(s.host.replies)
    ensures CharsKept(s')
  {
    hide Held, InHand, CharsIn, CharIn, Shown, Ints;
    var front := Held(s.pc) + Shown(s.buf);
    assert OnTheWay(s) == front + (CharIn(InHand(s.pc)) + CharIn(s.fromhost) + CharsIn(s.host.replies));
    assert OnTheWay(s') == front + (CharIn(InHand(s'.pc)) + CharIn(s'.fromhost) + CharsIn(s'.host.replies));
  }

  lemma CheckUseKeepsChars(s: State)
    requires s.pc.CheckUse? && CharsKept(s) && ReadsBalance(s) && PointHolds(s)
    ensures CharsKept(TargetStep(s))
  {
    hide Is, Decode, Pack, Char, Addressable, CountReads, CountSys, CharsIn;
    OneKind(s.pc.fh);
    assert CharIn(ZERO) == [];
    if IsRead(s.pc.fh) {
      var s' := TargetStep(s);
      assert Shown(s'.buf) == CharIn(s.pc.fh);
      assert OnTheWay(s') == OnTheWay(s);
    }
  }

  lemma KeepsCheckUse(s: State)
    requires Inv(s) && s.pc.CheckUse?
    ensures Inv(TargetStep(s))
  {
    hide Is, Decode, Pack, Char, Addressable, CountReads, CountSys, CharsIn, CharsKept;
    OneKind(s.pc.fh);
    CheckUseKeepsChars(s);
  }

  lemma KeepsGetRead(s: State)
    requires Inv(s) && s.pc.GetRead?
    ensures Inv(TargetStep(s))
  {
    hide Is, Decode, Pack, Char, Addressable, CountReads, CountSys, CharsIn;
    if s.buf < 0 {
      assert s.log.got + Shown(s.buf) == s.log.got;
    }
  }

  lemma KeepsGetMark(s: State)
    requires Inv(s) && s.pc.GetMark?
    ensures Inv(TargetStep(s))
  {
    hide Is, Decode, Pack, Char, Addressable, CountReads, CountSys, CharsIn;
  }

  lemma KeepsReadBack(s: State)
    requires Inv(s) && s.pc.ReadBack?
    ensures Inv(TargetStep(s))
  {
    hide Is, Decode, Pack, Char, Addressable, CountReads, CountSys, CharsIn;
  }

  lemma KeepsStart(s: State, call: Call)
    requires Inv(s)
    ensures Inv(Do(s, Start(call)))
  {
    hide Is, Decode, Pack, Char, Addressable;
  }

  lemma TakeKeepsChars(s: State, ack: Cell)
    requires CharsKept(s)
    ensures CharsKept(Do(s, Take(ack)))
  {
    hide Is, Decode, Pack, Char, Addressable, CountReads, CountSys, CharsIn, Shown, Held;
    OneKind(ack);
    CountsOfAppend(s.host.replies, ack);
    if IsWrite(ack) {
      assert CharsIn(s.host.replies + [ack]) == CharsIn(s.host.replies);
    }
  }

  lemma KeepsTake(s: State, ack: Cell)
    requires Inv(s)
    ensures Inv(Do(s, Take(ack)))
  {
    hide Is, Decode, Pack, Char, Addressable, CountReads, CountSys, CharsIn, CharsKept;
    OneKind(ack);
    OneKind(s.tohost);
    TakeKeepsChars(s, ack);
    CountsOfAppend(s.host.replies, ack);
  }

  lemma KeepsExecute(s: State, result: Cell, reply: Cell)
    requires Inv(s)
    ensures Inv(Do(s, Execute(result, reply)))
  {
    hide Is, Decode, Pack, Char, Addressable, CountReads, CountSys, CharsIn, Shown, Held;
    OneKind(reply);
    CountsOfAppend(s.host.replies, reply);
    if IsSys(reply) {
      assert CharsIn(s.host.replies + [reply]) == CharsIn(s.host.replies);
    }
  }

  lemma AnswerKeepsChars(s: State)
    requires CharsKept(s)
    ensures CharsKept(Do(s, Answer))
  {
    hide Is, Decode, Pack, Char, Addressable, CountReads, CountSys, CharsIn, Shown, Held, CharIn;
    if s.host.asked > 0 && s.host.consumed < |s.host.typed| {
      var n, typed := s.host.consumed, s.host.typed;
      var w := CharReply(typed[n]);
      ReplyFacts(typed[n]);
      CountsOfAppend(s.host.replies, w);
      assert Ints(typed[..n + 1]) == Ints(typed[..n]) + [typed[n] as int];
      var s' := Do(s, Answer);
      assert s'.log.got + OnTheWay(s') == s.log.got + OnTheWay(s) + CharIn(w);
    }
  }

  lemma AnswerKeepsBlock(s: State)
    requires BlockHolds(s)
    ensures BlockHolds(Do(s, Answer))
  {
  }

  lemma KeepsAnswer(s: State)
    requires Inv(s)
    ensures Inv(Do(s, Answer))
  {
    hide Is, Decode, Pack, Char, Addressable, CountReads, CountSys, CharsIn, CharsKept, Known, IsRead, IsSys,
         BlockHolds;
    AnswerKeepsBlock(s);
    AnswerKeepsChars(s);
    if s.host.asked > 0 && s.host.consumed < |s.host.typed| {
      var w := CharReply(s.host.typed[s.host.consumed]);
      ReplyFacts(s.host.typed[s.host.consumed]);
      CountsOfAppend(s.host.replies, w);
    }
  }

  lemma KeepsType(s: State, c: bv8)
    requires Inv(s)
    ensures Inv(Do(s, Type(c)))
  {
    hide Is, Decode, Pack, Char, Addressable;
  }

  lemma KeepsDeliver(s: State)
    requires Inv(s)
    ensures Inv(Do(s, Deliver))
  {
    hide Is, Decode, Pack, Char, Addressable, CountReads, CountSys, CharsIn, CharIn, CharsKept;
    if s.host.replies != [] {
      QueueHead(s.host.replies);
    }
    DeliverKeepsChars(s);
  }

  lemma DeliverKeepsChars(s: State)
    requires CharsKept(s)
    ensures CharsKept(Do(s, Deliver))
  {
    hide Is, Decode, Pack, Char, Addressable, CountReads, CountSys, CharsIn, CharIn, CharsKept, Held, InHand;
    if s.fromhost == ZERO && s.host.replies != [] {
      QueueHead(s.host.replies);
      NoChar();
      var hand := CharIn(InHand(s.pc));
      assert hand + [] + CharsIn(s.host.replies)
             == hand + CharIn(s.host.replies[0]) + CharsIn(s.host.replies[1..]);
      WordsMove(s, Do(s, Deliver));
    }
  }

  lemma NoChar()
    ensures CharIn(ZERO) == []
  {
  }

  lemma QueueHead(ws: seq<Cell>)
    requires ws != []
    ensures CountReads(ws) == One(IsRead(ws[0])) + CountReads(ws[1..])
    ensures CountSys(ws) == One(IsSys(ws[0])) + CountSys(ws[1..])
    ensures CharsIn(ws) == CharIn(ws[0]) + CharsIn(ws[1..])
  {
  }

  /** One step of either side keeps the invariant. */
  lemma StepKeeps(s: State, step: Step)
    requires Inv(s)
    ensures Inv(Do(s, step))
  {
    hide Inv, TargetStep;
    match step
    case Start(call) => KeepsStart(s, call);
    case Take(ack) => KeepsTake(s, ack);
    case Execute(result, reply) => KeepsExecute(s, result, reply);
    case Answer => KeepsAnswer(s);
    case Type(c) => KeepsType(s, c);
    case Deliver => KeepsDeliver(s);
    case Target => TargetKeeps(s);
  }

  lemma TargetKeeps(s: State)
    requires Inv(s)
    ensures Inv(TargetStep(s))
  {
    hide Inv;
    match s.pc
    case Idle =>
    case Fill(_, _) => KeepsFill(s);
    case SetTest(_) => KeepsSetTest(s);
    case SetWrite(_) => KeepsSetWrite(s);
    case WaitTest(_) => KeepsWaitTest(s);
    case WaitTake(_) => KeepsWaitTake(s);
    case CheckTest(_) => KeepsCheckTest(s);
    case CheckClear(_, _) => KeepsCheckClear(s);
    case CheckUse(_, _) => KeepsCheckUse(s);
    case GetRead => KeepsGetRead(s);
    case GetMark(_) => KeepsGetMark(s);
    case ReadBack(_) => KeepsReadBack(s);
    case Failed =>
  }

  /** Every state of every run satisfies the invariant. */
  lemma {:induction false} RunKeeps(s0: State, steps: seq<Step>)
    requires Init(s0)
    ensures Inv(Run(s0, steps))
  {
    hide Inv, Do;
    if steps == [] {
      InitHolds(s0);
    } else {
      RunKeeps(s0, steps[..|steps| - 1]);
      StepKeeps(Run(s0, steps[..|steps| - 1]), steps[|steps| - 1]);
    }
  }

  lemma InitHolds(s: State)
    requires Init(s)
    ensures Inv(s)
  {
    hide Is, Decode, Pack, Char, Addressable;
  }

  // ---- calls and commands ----

  /** The commands that the calls to putchar stand for. */
  function PutWrites(calls: seq<Call>): seq<Command> {
    if calls == [] then []
    else
      var c := calls[|calls| - 1];
      PutWrites(calls[..|calls| - 1]) + if c.PutChar? then [Written(c.c)] else []
  }

  predicate IsConsoleWrite(c: Command) {
    c.dev == 1 && c.cmd == 1
  }

  /** The console writes among some commands. */
  function Writes(cs: seq<Command>): seq<Command> {
    if cs == [] then []
    else
      var c := cs[|cs| - 1];
      Writes(cs[..|cs| - 1]) + if IsConsoleWrite(c) then [c] else []
  }

  /** The argument blocks handed to `frontend_syscall`. */
  function SysBlocks(calls: seq<Call>): seq<seq<Cell>> {
    if calls == [] then []
    else
      var c := calls[|calls| - 1];
      SysBlocks(calls[..|calls| - 1]) + if c.Syscall? && |c.args| == 8 then [c.args] else []
  }

  function Blocks(done: seq<Done>): seq<seq<Cell>> {
    if done == [] then [] else Blocks(done[..|done| - 1]) + [done[|done| - 1].0]
  }

  /** The request of the call under way; a read counts once it is being posted. */
  function UnderWay(pc: Pc): seq<Req> {
    if pc.Fill? || pc.WaitTest? || pc.WaitTake? || pc.ReadBack? then [SysReq(pc.args)]
    else if pc.SetTest? || pc.SetWrite? then [pc.r]
    else if Checking(pc) then UnderWayAfter(pc.k)
    else []
  }

  function UnderWayAfter(k: After): seq<Req> {
    match k
    case BackToSet(r) => [r]
    case BackToWait(args) => [SysReq(args)]
    case BackToGet => []
  }

  function WriteUnderWay(rs: seq<Req>): seq<Command> {
    if rs != [] && rs[0].WriteReq? then [Written(rs[0].c)] else []
  }

  function SysUnderWay(rs: seq<Req>): seq<seq<Cell>> {
    if rs != [] && rs[0].SysReq? then [rs[0].args] else []
  }

  /** Each call to putchar posts its own character, and each call to `frontend_syscall` returns for its own
      arguments, in the order of the calls. */
  predicate CallsTracked(s: State) {
    && Writes(s.log.posted) + WriteUnderWay(UnderWay(s.pc)) == PutWrites(s.log.calls)
    && Blocks(s.log.returned) + SysUnderWay(UnderWay(s.pc)) == SysBlocks(s.log.calls)
  }

  lemma StepTracks(s: State, step: Step)
    requires CallsTracked(s) && PointHolds(s)
    ensures CallsTracked(Do(s, step))
  {
    hide Is, Decode, Pack, Char, Addressable, TargetStep, PointHolds, Writes, Blocks;
    match step
    case Start(call) =>
      assert (s.log.calls + [call])[..|s.log.calls|] == s.log.calls;
    case Target => TargetTracks(s);
    case _ =>
  }

  lemma TargetTracks(s: State)
    requires CallsTracked(s) && PointHolds(s)
    ensures CallsTracked(TargetStep(s))
  {
    if s.pc.SetWrite? {
      PostTracks(s);
    } else if s.pc.ReadBack? {
      ReturnTracks(s);
    } else {
      hide PointHolds, WriteUnderWay, SysUnderWay, UnderWay, TargetStep;
      UnderWayKept(s);
    }
  }

  lemma UnderWayKept(s: State)
    requires PointHolds(s) && !s.pc.SetWrite? && !s.pc.ReadBack?
    ensures var s' := TargetStep(s);
            && s'.log.calls == s.log.calls && s'.log.posted == s.log.posted && s'.log.returned == s.log.returned
            && WriteUnderWay(UnderWay(s'.pc)) == WriteUnderWay(UnderWay(s.pc))
            && SysUnderWay(UnderWay(s'.pc)) == SysUnderWay(UnderWay(s.pc))
  {
    hide Is, Decode, Pack, Char, Addressable, PointHolds;
    if s.pc.CheckUse? {
      CheckUseResumes(s);
    }
  }

  lemma CheckUseResumes(s: State)
    requires PointHolds(s) && s.pc.CheckUse?
    ensures TargetStep(s).pc == Resume(s.pc.k) && TargetStep(s).log == s.log
  {
    hide Is, Decode, Pack, Char, Addressable;
    OneKind(s.pc.fh);
  }

  lemma WritesAppend(cs: seq<Command>, c: Command)
    ensures Writes(cs + [c]) == Writes(cs) + if IsConsoleWrite(c) then [c] else []
  {
    assert (cs + [c])[..|cs|] == cs;
  }

  lemma PostTracks(s: State)
    requires CallsTracked(s) && s.pc.SetWrite?
    ensures CallsTracked(TargetStep(s))
  {
    hide PutWrites, SysBlocks, Blocks, Pack, Writes, Is, Decode, Char, Addressable, Shown;
    WritesAppend(s.log.posted, Parts(s.pc.r, s.block));
  }

  lemma ReturnTracks(s: State)
    requires CallsTracked(s) && s.pc.ReadBack?
    ensures CallsTracked(TargetStep(s))
  {
    hide PutWrites, SysBlocks, Writes;
    if s.magic != [] {
      var d := (s.pc.args, s.magic[0]);
      assert (s.log.returned + [d])[..|s.log.returned|] == s.log.returned;
    }
  }

  lemma InvPoint(s: State)
    requires Inv(s)
    ensures PointHolds(s)
  {
  }

  lemma {:induction false} RunTracks(s0: State, steps: seq<Step>)
    requires Init(s0)
    ensures CallsTracked(Run(s0, steps))
  {
    hide Inv, Do;
    if steps != [] {
      RunTracks(s0, steps[..|steps| - 1]);
      RunKeeps(s0, steps[..|steps| - 1]);
      InvPoint(Run(s0, steps[..|steps| - 1]));
      StepTracks(Run(s0, steps[..|steps| - 1]), steps[|steps| - 1]);
    }
  }

  // ---- what the invariant says ----

  /** No assertion of `__check_fromhost` ever fails. */
  lemma NeverFails(s0: State, steps: seq<Step>)
    requires Init(s0)
    ensures !Run(s0, steps).pc.Failed?
  {
    RunKeeps(s0, steps);
  }

  /** No console character is lost, duplicated or reordered: in every run the characters returned by getchar are
      a prefix of those typed. The ones in between are in transit, and none is when nothing is outstanding. */
  lemma NoCharacterLost(s0: State, steps: seq<Step>)
    requires Init(s0)
    ensures var s := Run(s0, steps);
            && s.log.got <= Ints(s.host.typed)
            && s.host.consumed <= |s.host.typed|
            && s.log.got + OnTheWay(s) == Ints(s.host.typed[..s.host.consumed])
  {
    RunKeeps(s0, steps);
    var s := Run(s0, steps);
    var n := s.host.consumed;
    assert Ints(s.host.typed)[..n] == Ints(s.host.typed[..n]);
    assert s.log.got == Ints(s.host.typed)[..n][..|s.log.got|];
  }

  /** Between operations the console buffer is -1 exactly while one read is outstanding, and otherwise none is. */
  lemma OneReadOutstanding(s0: State, steps: seq<Step>)
    requires Init(s0)
    ensures var s := Run(s0, steps);
            s.pc.Idle? ==>
              && ReadsOut(s) == One(IsRead(s.tohost)) + s.host.asked + CountReads(s.host.replies) + One(IsRead(s.fromhost))
              && (s.buf == -1 <==> ReadsOut(s) == 1)
              && (s.buf != -1 <==> ReadsOut(s) == 0)
  {
    RunKeeps(s0, steps);
  }

  /** Replies are never misdelivered: whenever the target is between operations, the system calls the host ran are
      those that returned, with the same argument blocks and results and in the same order; they are the calls that
      were made; and no reply to a system call is left over. */
  lemma OwnResults(s0: State, steps: seq<Step>)
    requires Init(s0)
    ensures var s := Run(s0, steps);
            s.pc.Idle? ==>
              && s.log.returned == s.log.ran
              && Blocks(s.log.returned) == SysBlocks(s.log.calls)
              && SysToRun(s) == 0 && SysToAck(s) == 0
  {
    RunKeeps(s0, steps);
    RunTracks(s0, steps);
  }

  /** Mailbox conservation: `tohost` is only written while it is 0, so the commands the host took and the one still
      there are the commands posted, in order, each with the device, command and data it was posted with. */
  lemma CommandsConserved(s0: State, steps: seq<Step>)
    requires Init(s0)
    ensures var s := Run(s0, steps);
            && s.log.posted == s.log.taken + (if s.tohost != ZERO then [Decode(s.tohost)] else [])
            && (s.pc.SetWrite? ==> s.tohost == ZERO)
  {
    RunKeeps(s0, steps);
  }

  /** The characters handed to putchar. */
  function PutChars(calls: seq<Call>): seq<bv8> {
    if calls == [] then []
    else
      var c := calls[|calls| - 1];
      PutChars(calls[..|calls| - 1]) + if c.PutChar? then [c.c] else []
  }

  /** A command that writes this character to the console: device 1, command 1, the character as data. */
  predicate WritesChar(command: Command, c: bv8) {
    command.dev == 1 && command.cmd == 1 && command.data == c as bv64
  }

  lemma PutWritesAreChars(calls: seq<Call>)
    ensures |PutWrites(calls)| == |PutChars(calls)|
    ensures forall i :: 0 <= i < |PutChars(calls)| ==> WritesChar(PutWrites(calls)[i], PutChars(calls)[i])
  {
    if calls != [] {
      PutWritesAreChars(calls[..|calls| - 1]);
    }
  }

  /** In every run the i-th console write that the host takes carries the i-th character handed to putchar, and
      between operations, with nothing pending, none is missing. */
  lemma CharactersWritten(s0: State, steps: seq<Step>)
    requires Init(s0)
    ensures var s := Run(s0, steps);
            var shown, given := Writes(s.log.taken), PutChars(s.log.calls);
            && |shown| <= |given|
            && (forall i :: 0 <= i < |shown| ==> WritesChar(shown[i], given[i]))
            && (s.pc.Idle? && s.tohost == ZERO ==> |shown| == |given|)
  {
    hide *;
    OutputInOrder(s0, steps);
    PutWritesAreChars(Run(s0, steps).log.calls);
  }

  // ---- operations that nothing interrupts ----

  /** `n` accesses of the target. */
  function Targets(s: State, n: nat): State
    decreases n
  {
    if n == 0 then s else Targets(TargetStep(s), n - 1)
  }

  /** putchar on an idle mailbox leaves its character in `tohost`. */
  lemma PutCharAlone(s: State, c: bv8)
    requires s.pc.Idle? && s.tohost == ZERO && Addressable(s.block)
    ensures var u := Targets(Do(s, Start(PutChar(c))), 2);
            && u.pc.Idle? && u.tohost == Cell(0x0101_0000_0000_0000 | (c as bv64))
            && u.fromhost == s.fromhost && u.buf == s.buf
            && u.log.posted == s.log.posted + [Command(1, 1, c as bv64)]
  {
    FewTargets(Do(s, Start(PutChar(c))));
  }

  lemma FewTargets(s: State)
    ensures Targets(s, 1) == TargetStep(s) && Targets(s, 2) == TargetStep(TargetStep(s))
    ensures Targets(s, 3) == TargetStep(TargetStep(TargetStep(s)))
  {
    hide TargetStep;
  }

  /** getchar with a reply waiting returns its character and asks for the next one. */
  lemma GetCharWithReply(s: State)
    requires s.pc.Idle? && s.tohost == ZERO && IsRead(s.fromhost)
    ensures var u := Targets(Do(s, Start(GetChar)), 7);
            && u.pc.Idle? && u.tohost == Cell(0x0100_0000_0000_0000) && u.fromhost == ZERO && u.buf == -1
            && u.log.got == s.log.got + [(s.fromhost.bits & 0xFF) as int]
            && u.log.posted == s.log.posted + [Command(1, 0, 0)]
  {
    hide TargetStep, Is, Char;
    ReplyByte(s.fromhost);
    var u := Do(s, Start(GetChar));
    ReplyChecked(u);
    var u3 := Targets(u, 3);
    CharacterTaken(u3, 1 + Char(s.fromhost));
    TargetsAppend(u, 3, 4);
  }

  lemma ReplyChecked(s: State)
    requires s.pc == CheckTest(BackToGet) && IsRead(s.fromhost)
    ensures Targets(s, 3) == s.(fromhost := ZERO, buf := 1 + Char(s.fromhost), pc := GetRead)
  {
    hide Is, Char;
    FewTargets(s);
  }

  lemma CharacterTaken(s: State, ch: int)
    requires s.pc == GetRead && s.buf == ch >= 1 && s.tohost == ZERO
    ensures var u := Targets(s, 4);
            && u.pc.Idle? && u.tohost == Cell(0x0100_0000_0000_0000) && u.fromhost == s.fromhost && u.buf == -1
            && u.log.got == s.log.got + [ch - 1] && u.log.posted == s.log.posted + [Command(1, 0, 0)]
  {
    hide Pack;
    PackedRead();
    var asking := s.(buf := -1, pc := SetTest(ReadReq(ch)));
    FewTargets(s);
    assert Targets(s, 2) == asking;
    FewTargets(asking);
    TargetsAppend(s, 2, 2);
  }

  lemma PackedRead()
    ensures Pack(Command(1, 0, 0)) == Cell(0x0100_0000_0000_0000)
  {
  }

  lemma ReplyByte(w: Cell)
    ensures Char(w) == (w.bits & 0xFF) as int
  {
    FieldBits(0, 0, 0, w.bits);
    assert CharBits(w.bits) == (w.bits & 0xFF) as bv8;
  }

  /** getchar with a read outstanding and no reply returns nothing and posts nothing. */
  lemma GetCharWithoutReply(s: State)
    requires s.pc.Idle? && s.fromhost == ZERO && s.buf == -1
    ensures Targets(Do(s, Start(GetChar)), 2) == s.(log := s.log.(calls := s.log.calls + [GetChar]))
  {
    FewTargets(Do(s, Start(GetChar)));
    assert s.log.got + [] == s.log.got;
  }

  lemma {:induction false} FillAlone(s: State, args: seq<Cell>, i: nat)
    requires s.pc == Fill(args, i) && |args| == |s.magic| == 8 && i <= 8 && s.magic[..i] == args[..i]
    ensures Targets(s, 9 - i) == s.(magic := args, pc := SetTest(SysReq(args)))
    decreases 8 - i
  {
    if i < 8 {
      FillAlone(TargetStep(s), args, i + 1);
    } else {
      assert s.magic == args;
      assert Targets(s, 1) == TargetStep(s);
    }
  }

  /** The host's part of a system call. */
  function Served(s: State, result: Cell, reply: Cell): State {
    Do(Do(Do(s, Take(ZERO)), Execute(result, reply)), Deliver)
  }

  /** frontend_syscall on an idle mailbox posts the address of its filled argument block; once the host has run the
      call and delivered its reply, it returns the host's result. */
  lemma SyscallAlone(s: State, args: seq<Cell>, result: Cell, reply: Cell)
    requires Inv(s) && s.pc.Idle? && s.tohost == ZERO && s.fromhost == ZERO && s.host.replies == []
    requires |args| == 8 && IsSys(reply)
    ensures var waiting := Targets(Do(s, Start(Syscall(args))), 11);
            && waiting.tohost == s.block && waiting.magic == args
            && var u := Targets(Served(waiting, result, reply), 3);
               && u.pc.Idle? && u.tohost == ZERO && u.fromhost == ZERO
               && u.log.ran == s.log.ran + [(args, result)] && u.log.returned == s.log.returned + [(args, result)]
  {
    hide Is, Pack, Decode, CountReads, CountSys;
    var u0 := Do(s, Start(Syscall(args)));
    FillAlone(u0, args, 0);
    var u9 := Targets(u0, 9);
    TargetsAppend(u0, 9, 2);
    BlockWord(s.block);
    var waiting := TargetStep(TargetStep(u9));
    FewTargets(u9);
    assert waiting.tohost == s.block && IsSys(s.block) && waiting.pc == WaitTest(args);
    NothingToRun(s);
    ServedCall(waiting, args, result, reply);
  }

  lemma TargetsAppend(s: State, m: nat, n: nat)
    ensures Targets(s, m + n) == Targets(Targets(s, m), n)
    decreases m
  {
    hide TargetStep;
    if m > 0 {
      TargetsAppend(TargetStep(s), m - 1, n);
    }
  }

  lemma BlockWord(block: Cell)
    requires Addressable(block)
    ensures Pack(Command(0, 0, block.bits)) == block && IsSys(block)
  {
  }

  lemma NothingToRun(s: State)
    requires Inv(s) && s.pc.Idle?
    ensures s.host.syscalls == 0 && Addressable(s.block) && |s.magic| == 8
  {
    hide CountSys, CountReads, CharsKept, ReadsBalance;
  }

  lemma ServedCall(s: State, args: seq<Cell>, result: Cell, reply: Cell)
    requires s.pc == WaitTest(args) && s.tohost == s.block && IsSys(s.block) && IsSys(reply)
    requires s.magic == args && |args| == 8
    requires s.fromhost == ZERO && s.host.replies == [] && s.host.syscalls == 0
    ensures var u := Targets(Served(s, result, reply), 3);
            && u.pc.Idle? && u.tohost == ZERO && u.fromhost == ZERO
            && u.log.ran == s.log.ran + [(args, result)] && u.log.returned == s.log.returned + [(args, result)]
  {
    hide Is, Decode;
    var taken := Do(s, Take(ZERO));
    var run := Do(taken, Execute(result, reply));
    var served := Do(run, Deliver);
    assert served.fromhost == reply && served.magic == args[0 := result];
    var back := TargetStep(TargetStep(served));
    assert back.pc == ReadBack(args);
    FewTargets(served);
  }

  // ---- what is posted, as such ----

  /** A command as the three operations post it: a console read, a console write, or a system call with the address of
      the argument block, which is where the host finds the arguments. */
  predicate WellPosted(c: Command, block: bv64) {
    || (c.dev == 1 && c.cmd == 0 && c.data == 0)
    || (c.dev == 1 && c.cmd == 1 && c.data < 256)
    || (c.dev == 0 && c.cmd == 0 && c.data == block)
  }

  lemma {:induction false} CommandsWellPosted(s0: State, steps: seq<Step>)
    requires Init(s0)
    ensures var s := Run(s0, steps);
            s.block == s0.block && forall i :: 0 <= i < |s.log.posted| ==> WellPosted(s.log.posted[i], s.block.bits)
    decreases |steps|
  {
    hide Do, WellPosted;
    if steps != [] {
      var before := steps[..|steps| - 1];
      CommandsWellPosted(s0, before);
      PostsWell(Run(s0, before), steps[|steps| - 1]);
    }
  }

  lemma PostsWell(s: State, step: Step)
    ensures Do(s, step).block == s.block
    ensures var posted := Do(s, step).log.posted;
            || posted == s.log.posted
            || (|posted| == |s.log.posted| + 1 && posted[..|s.log.posted|] == s.log.posted
                && WellPosted(posted[|s.log.posted|], s.block.bits))
  {
    hide Is, Decode, Pack, Char;
  }

  /** The console shows what putchar was given: the characters in the writes the host has taken are, in order, the
      first of those handed to putchar. */
  lemma OutputInOrder(s0: State, steps: seq<Step>)
    requires Init(s0)
    ensures var s := Run(s0, steps);
            && Writes(s.log.taken) <= PutWrites(s.log.calls)
            && (s.pc.Idle? && s.tohost == ZERO ==> Writes(s.log.taken) == PutWrites(s.log.calls))
  {
    hide *;
    RunKeeps(s0, steps);
    RunTracks(s0, steps);
    InvConserves(Run(s0, steps));
    OutputSoFar(Run(s0, steps));
  }

  lemma InvConserves(s: State)
    requires Inv(s)
    ensures Conserved(s)
  {
  }

  lemma OutputSoFar(s: State)
    requires Conserved(s) && CallsTracked(s)
    ensures Writes(s.log.taken) <= PutWrites(s.log.calls)
    ensures s.pc.Idle? && s.tohost == ZERO ==> Writes(s.log.taken) == PutWrites(s.log.calls)
  {
    hide Writes, PutWrites, SysBlocks, Blocks, Decode, Addressable, IsConsoleWrite;
    if s.tohost != ZERO {
      WritesAppend(s.log.taken, Decode(s.tohost));
    } else {
      assert s.log.taken + [] == s.log.taken;
    }
  }
}
