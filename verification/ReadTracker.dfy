/** The register-read tracker as a transition system: which command a response belongs to, when
    a command is finished or given up, and what its caller receives. */
module ReadTracker {
  import opened Basics
  import opened Bytes

  const READ_TIMEOUT := 200
  const READ_MAX_TIMEOUT := 1000
  const ACTIVITY_MIN := 20
  const ACTIVITY_MAX := 100
  const BLACKOUT_MIN := 50

  /** A register of a chip, the key of the forward map. */
  datatype Register = Register(addr: byte, chip: byte)

  datatype Answer = Answer(reg: Register, data: uint32)

  /** A read command. `sent` lists the values put on its channel, and `log` the answers counted
      for it; the program keeps neither, but every claim about a run is about them. */
  datatype Cmd = Cmd(seqNo: nat, targets: seq<byte>, addrs: seq<byte>,
                     requestTime: nat, responseTime: Option<nat>, finishTime: Option<nat>,
                     data: seq<int>, resps: nat, done: bool, completed: bool,
                     sent: seq<int>, log: seq<Answer>)
  {
    function Expected(): nat { |targets| * |addrs| }
  }

  /** What the reader loop records for the timeout checker, in milliseconds. */
  datatype Clock = Clock(loopTime: nat, readTime: nat, blackoutStart: nat, blackoutLength: nat)

  datatype Tracker<K> = Tracker(
    lastSeq: nat,
    cmds: map<K, Cmd>,                   // every read command ever submitted
    forward: map<Register, seq<K>>,      // cmdRegReadMap
    reverse: map<K, seq<Register>>,      // cmdReverseRegReadMap
    history: seq<K>,                     // cmdHistory
    clock: Clock)

  function Start<K>(now: nat): Tracker<K> {
    Tracker(0, map[], map[], map[], [], Clock(now, now, 0, 0))
  }

  function Waiting<K>(forward: map<Register, seq<K>>, reg: Register): seq<K> {
    if reg in forward then forward[reg] else []
  }

  function Row(chip: byte, addrs: seq<byte>): (r: seq<Register>)
    ensures |r| == |addrs|
  {
    seq(|addrs|, j requires 0 <= j < |addrs| => Register(addrs[j], chip))
  }

  /** All registers a command reads, in the order of its data slots. */
  function Registers(targets: seq<byte>, addrs: seq<byte>): (r: seq<Register>)
    ensures |r| == |targets| * |addrs|
  {
    if targets == [] then [] else Row(targets[0], addrs) + Registers(targets[1..], addrs)
  }

  function AddAll<K>(forward: map<Register, seq<K>>, regs: seq<Register>, k: K): map<Register, seq<K>>
    decreases |regs|
  {
    if regs == [] then forward
    else AddAll(forward[regs[0] := Waiting(forward, regs[0]) + [k]], regs[1..], k)
  }

  function RemoveFirst<K(==)>(ks: seq<K>, k: K): seq<K> {
    if ks == [] then [] else if ks[0] == k then ks[1..] else [ks[0]] + RemoveFirst(ks[1..], k)
  }

  function RemoveAll<K(==)>(forward: map<Register, seq<K>>, regs: seq<Register>, k: K): map<Register, seq<K>>
    decreases |regs|
  {
    if regs == [] then forward
    else
      var ks := Waiting(forward, regs[0]);
      RemoveAll(if k in ks then forward[regs[0] := RemoveFirst(ks, k)] else forward, regs[1..], k)
  }

  /** The scan for the oldest command: the last one with the least sequence number. */
  function Oldest<K>(cmds: map<K, Cmd>, ks: seq<K>): (r: Option<K>)
    requires forall k :: k in ks ==> k in cmds
    ensures r == None <==> ks == []
    ensures r.Some? ==> r.value in ks
  {
    if ks == [] then None
    else
      var n := |ks| - 1;
      match Oldest(cmds, ks[..n])
      case None => Some(ks[n])
      case Some(best) => if cmds[ks[n]].seqNo <= cmds[best].seqNo then Some(ks[n]) else Some(best)
  }

  function FirstIndex(s: seq<byte>, x: byte): (i: nat)
    ensures x in s ==> i < |s| && s[i] == x && x !in s[..i]
    ensures x !in s ==> i == 0
  {
    if x !in s then 0 else if s[0] == x then 0 else 1 + FirstIndex(s[1..], x)
  }

  function LastIndex(s: seq<byte>, x: byte): (i: nat)
    ensures x in s ==> i < |s| && s[i] == x && x !in s[i + 1..]
    ensures x !in s ==> i == 0
  {
    if x !in s then 0
    else if s[|s| - 1] == x then |s| - 1
    else assert x in s[..|s| - 1]; LastIndex(s[..|s| - 1], x)
  }

  /** The data slot a response is stored in. */
  function SlotOf(c: Cmd, reg: Register): nat {
    |c.addrs| * FirstIndex(c.targets, reg.chip) + LastIndex(c.addrs, reg.addr)
  }

  /** Puts a value on the channel, and marks the command completed if it was ever answered. */
  function Released(c: Cmd, val: int): Cmd {
    if c.completed then c
    else if c.finishTime == None || c.responseTime == None then c.(sent := c.sent + [val])
    else c.(sent := c.sent + [val], completed := true)
  }

  function Release<K>(s: Tracker<K>, k: K, val: int): Tracker<K>
    requires k in s.cmds
  {
    s.(forward := RemoveAll(s.forward, if k in s.reverse then s.reverse[k] else [], k),
       reverse := s.reverse - {k},
       cmds := s.cmds[k := Released(s.cmds[k], val)])
  }

  /** A read command enters: numbered, its slots set to -1, and entered in both maps and the history. */
  function Submit<K>(s: Tracker<K>, k: K, targets: seq<byte>, addrs: seq<byte>, now: nat): Tracker<K> {
    var c := Cmd(s.lastSeq + 1, targets, addrs, now, None, None,
                 seq(|targets| * |addrs|, _ => -1), 0, false, false, [], []);
    s.(lastSeq := s.lastSeq + 1,
       cmds := s.cmds[k := c],
       forward := AddAll(s.forward, Registers(targets, addrs), k),
       reverse := s.reverse[k := Registers(targets, addrs)],
       history := s.history + [k])
  }

  /** One response counted for a command. */
  function Counted(c: Cmd, a: Answer, now: nat): Cmd
    requires SlotOf(c, a.reg) < |c.data|
  {
    c.(data := c.data[SlotOf(c, a.reg) := a.data],
       responseTime := if c.responseTime == None then Some(now) else c.responseTime,
       resps := c.resps + 1,
       log := c.log + [a])
  }

  /** An answer counted for command k; the last expected one finishes the command. */
  function CountFor<K>(s: Tracker<K>, k: K, a: Answer, now: nat): Tracker<K>
    requires k in s.cmds && SlotOf(s.cmds[k], a.reg) < |s.cmds[k].data|
  {
    var c := Counted(s.cmds[k], a, now);
    if c.resps == c.Expected() then
      Release(s.(cmds := s.cmds[k := c.(finishTime := Some(now), done := true)],
                 history := RemoveFirst(s.history, k)), k, 0)
    else s.(cmds := s.cmds[k := c])
  }

  /** A response goes to the oldest command waiting for its register, if there is one. */
  function Respond<K>(s: Tracker<K>, a: Answer, now: nat): Tracker<K>
    requires Sound(s)
  {
    match Oldest(s.cmds, Waiting(s.forward, a.reg))
    case None => s
    case Some(k) => CountFor(s, k, a, now)
  }

  /** What Respond needs to be defined: the maps point at commands that have the slot. */
  predicate Sound<K>(s: Tracker<K>) {
    forall reg :: reg in s.forward ==>
      forall k :: k in s.forward[reg] ==> k in s.cmds && SlotOf(s.cmds[k], reg) < |s.cmds[k].data|
  }

  datatype Verdict = Keep | Renew(requestTime: nat) | GiveUp

  /** The five cases of the timeout checker. */
  function Judge(c: Cmd, clock: Clock, now: nat): Verdict {
    if now - c.requestTime >= READ_TIMEOUT then
      if now - c.requestTime >= READ_MAX_TIMEOUT then GiveUp
      else if c.requestTime < clock.blackoutStart then Renew(clock.blackoutStart + clock.blackoutLength)
      else if now - clock.readTime > ACTIVITY_MAX then Keep
      else if now - clock.readTime < ACTIVITY_MIN then Keep
      else GiveUp
    else Keep
  }

  /** What the timeout scan decides for a command, carried out. */
  function Checked<K>(s: Tracker<K>, k: K, now: nat): (s': Tracker<K>)
    requires k in s.cmds
    ensures s'.cmds.Keys == s.cmds.Keys && s'.history == s.history && s'.clock == s.clock
  {
    match Judge(s.cmds[k], s.clock, now)
    case Keep => s
    case Renew(t) => s.(cmds := s.cmds[k := s.cmds[k].(requestTime := t)])
    case GiveUp => Release(s.(cmds := s.cmds[k := s.cmds[k].(finishTime := Some(now))]), k, 1)
  }

  /** The timeout scan walks the history backwards and keeps the survivors in that order. */
  function ScanLoop<K>(s: Tracker<K>, n: nat, kept: seq<K>, now: nat): Tracker<K>
    requires n <= |s.history| && forall i :: 0 <= i < n ==> s.history[i] in s.cmds
    decreases n
  {
    if n == 0 then s.(history := kept)
    else
      var k := s.history[n - 1];
      ScanLoop(Checked(s, k, now), n - 1,
               if Judge(s.cmds[k], s.clock, now).GiveUp? then kept else kept + [k], now)
  }

  function Scan<K>(s: Tracker<K>, now: nat): Tracker<K>
    requires forall k :: k in s.history ==> k in s.cmds
  {
    ScanLoop(s, |s.history|, [], now)
  }

  /** One turn of the reader loop: a turn that took more than 50 ms leaves a blackout window. */
  function Tick(c: Clock, now: nat): Clock {
    if now > c.loopTime + BLACKOUT_MIN then Clock(now, now, c.loopTime, now - c.loopTime)
    else c.(loopTime := now, readTime := now)
  }
}
