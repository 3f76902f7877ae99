/**
 What mounting all entries of an fstab does, as a function of the answers of the system: the
 loop over the entries, which replays a group after its wiped partition was formatted.
 */
module MountRun {
  import opened Bytes
  import opened MountAlternatives

  const EACCES := 13
  const EBUSY := 16

  const FAIL := -1
  const NOT_ENCRYPTABLE := 0
  const NEEDS_RECOVERY := 4
  const FILE_ENCRYPTED := 5
  const NEEDS_METADATA_ENCRYPTION := 6
  const IS_METADATA_ENCRYPTED := 7

  predicate StatusCode(code: int) {
    code in {NOT_ENCRYPTABLE, NEEDS_RECOVERY, FILE_ENCRYPTED, NEEDS_METADATA_ENCRYPTION, IS_METADATA_ENCRYPTED}
  }

  datatype Mode = Default | Early | Late | OnlyUserdata

  datatype Verdict = Skip | Abort | Go

  /** Entries that take part in a mount mode at all. */
  predicate Eligible(e: Entry, mode: Mode) {
    && (e.firstStage ==> e.formattable)
    && !e.voldManaged && !e.recoveryOnly
    && (mode == Late ==> e.lateMount) && (mode == Early ==> !e.lateMount)
    && e.fsType != "swap" && e.fsType != "emmc" && e.fsType != "mtd"
    && e.mountPoint != "/" && e.mountPoint != "/system"
    && (mode == OnlyUserdata ==> e.mountPoint == "/data")
  }

  /** A question that is asked under a condition, and counts as answered yes otherwise. */
  function AskIf(asked: bool, script: seq<nat>): (r: (bool, seq<nat>)) {
    if asked then (Next(script) != 0, Later(script)) else (true, script)
  }

  /** Labels, logical partitions, checkpoints, and waiting. */
  function ReadyBy(ext: bool, logical: bool, wait: bool, script: seq<nat>): (r: (bool, seq<nat>)) {
    var (translated, s0) := AskIf(ext, script);
    if !translated then (false, s0)
    else
      var (updated, s1) := AskIf(logical, s0);
      if !updated then (false, s1)
      else
        var (checkpointed, s2) := AskIf(true, s1);
        if !checkpointed then (false, s2) else AskIf(wait, s2)
  }

  /** Verified boot. */
  function VerifyBy(avb: bool, avbKeys: bool, avbOpen: bool, script: seq<nat>): (r: (Verdict, bool, seq<nat>)) {
    var (opens, s0) := AskIf(avb && !avbOpen, script);
    if !opens then (Abort, false, s0)
    else
      var (verified, s1) := AskIf(avb || avbKeys, s0);
      (if verified then Go else Skip, avbOpen || avb, s1)
  }

  function SetUpBy(e: Entry, avbOpen: bool, script: seq<nat>): (r: (Verdict, bool, seq<nat>)) {
    var (ready, s) := ReadyBy(IsExt(e.fsType), e.logical, e.wait, script);
    if ready then VerifyBy(e.avb, e.avbKeys, avbOpen, s) else (Skip, avbOpen, s)
  }

  predicate IsExt(fsType: string) {
    fsType == "ext2" || fsType == "ext3" || fsType == "ext4"
  }

  function PrepareBy(e: Entry, mode: Mode, avbOpen: bool, script: seq<nat>): (r: (Verdict, bool, seq<nat>)) {
    if e.firstStage && !e.formattable then (Skip, avbOpen, script)
    else
      var (absent, s) := if e.firstStage then (Next(script) == 0, Later(script)) else (true, script);
      if !absent || !Eligible(e, mode) then (Skip, avbOpen, s) else SetUpBy(e, avbOpen, s)
  }

  // ----- The run

  /** The state of a run between two turns of the loop. */
  datatype Run = Run(
    i: int,
    log: seq<Event>,
    wiped: set<nat>,
    flag: bool,
    avbOpen: bool,
    script: seq<nat>,
    fatal: bool,
    encryptable: int,
    errors: nat,
    userdata: bool)

  /** A mounted entry: nothing is left to do, or it is unmounted and encrypted. */
  function MountedBy(e: Entry, at: nat, r: Run): (t: Run) {
    if !e.MetadataEncrypted() then
      r.(encryptable := if e.fileEncryption then FILE_ENCRYPTED else r.encryptable,
         userdata := r.userdata || e.mountPoint == "/data")
    else if Next(r.script) == 0 then
      r.(log := r.log + [Stuck(at)], script := Later(r.script), fatal := true)
    else
      var s := Later(r.script);
      var ok := Next(s) != 0;
      r.(log := r.log + [Vdc(at, r.flag, ok)], script := Later(s), fatal := !ok,
         encryptable := NEEDS_METADATA_ENCRYPTION, userdata := r.userdata || (ok && e.mountPoint == "/data"))
  }

  /** Formatting: the group is replayed, or recovery is suggested. */
  function FormatBy(e: Entry, top: nat, r: Run): (t: Run) {
    if Next(r.script) != 0 then
      r.(i := top, log := r.log + [Format(top, true)], wiped := r.wiped - {e.partition}, script := Later(r.script))
    else
      r.(log := r.log + [Format(top, false)], script := Later(r.script), encryptable := NEEDS_RECOVERY)
  }

  /** A wiped, formattable entry: the encryption service first for `/data`, else or after that a format. */
  function WipedBy(e: Entry, top: nat, r: Run): (t: Run) {
    if e.MetadataEncrypted() && e.mountPoint == "/data" then
      var ok := Next(r.script) != 0;
      var q := r.(log := r.log + [Vdc(top, true, ok)], script := Later(r.script), encryptable := IS_METADATA_ENCRYPTED);
      if ok then q.(userdata := true) else FormatBy(e, top, q)
    else
      FormatBy(e, top, r)
  }

  /** A group that could not be mounted. */
  function FailedBy(e: Entry, top: nat, errno: nat, r: Run): (t: Run)
    ensures (t.i == r.i && t.wiped == r.wiped) || (t.i == top && t.wiped < r.wiped)
  {
    var wiped := e.partition in r.wiped;
    var q := r.(log := r.log + [Checked(top, wiped)], flag := wiped);
    if errno != EBUSY && errno != EACCES && e.formattable && wiped then
      WipedBy(e, top, q)
    else if errno != EBUSY && errno != EACCES && e.MetadataEncrypted() then
      var ok := Next(r.script) != 0;
      q.(log := q.log + [Vdc(top, false, ok)], script := Later(r.script), encryptable := IS_METADATA_ENCRYPTED,
         errors := if ok then r.errors else r.errors + 1, userdata := r.userdata || (ok && e.mountPoint == "/data"))
    else
      q.(errors := if e.noFail then r.errors else r.errors + 1)
  }

  function TriesLog(start: nat, t: Tries): (log: seq<Event>) {
    Failures(start, t.fs) + if t.ok then Success(t.at, t.before) else []
  }

  /** Where the loop goes on after a group. */
  function AfterGroup(es: seq<Entry>, start: nat): (next: nat)
    requires start < |es|
    ensures start < next
  {
    var g := GroupEnd(es, start, start);
    if g < |es| then g else g + 1
  }

  /** A group that is tried, and what follows from it. */
  function GroupBy(es: seq<Entry>, r: Run): (t: Run)
    requires 0 <= r.i < |es|
    ensures (t.i > r.i && t.wiped == r.wiped) || (t.i == r.i && t.wiped < r.wiped)
  {
    var t := TryGroup(r.i, GroupEnd(es, r.i, r.i), r.script);
    var q := r.(i := AfterGroup(es, r.i), log := r.log + TriesLog(r.i, t), script := t.rest);
    if t.ok then MountedBy(es[t.at], t.at, q) else FailedBy(es[r.i], r.i, ErrnoOf(t.fs), q)
  }

  function TurnBy(es: seq<Entry>, mode: Mode, r: Run): (t: Run)
    requires 0 <= r.i < |es|
    ensures (t.i > r.i && t.wiped == r.wiped) || (t.i == r.i && t.wiped < r.wiped)
  {
    var (verdict, open, script) := PrepareBy(es[r.i], mode, r.avbOpen, r.script);
    var ready := r.(avbOpen := open, script := script);
    match verdict
    case Skip => ready.(i := r.i + 1)
    case Abort => ready.(i := r.i + 1, log := r.log + [NoHandle(r.i)], fatal := true)
    case Go => GroupBy(es, ready)
  }

  function RunBy(es: seq<Entry>, mode: Mode, r: Run): (t: Run)
    requires 0 <= r.i
    decreases r.wiped, |es| - r.i
  {
    if r.fatal || r.i >= |es| then r else RunBy(es, mode, TurnBy(es, mode, r))
  }

  function Start(wiped: set<nat>, script: seq<nat>): (r: Run) {
    Run(0, [], wiped, false, false, script, false, NOT_ENCRYPTABLE, 0, false)
  }

  /** The end of the run in which the system gives these answers. */
  function RunOf(es: seq<Entry>, wiped: set<nat>, mode: Mode, script: seq<nat>): (r: Run) {
    RunBy(es, mode, Start(wiped, script))
  }

  lemma TurnIs(es: seq<Entry>, mode: Mode, r: Run)
    requires 0 <= r.i < |es|
    ensures var p := PrepareBy(es[r.i], mode, r.avbOpen, r.script);
            && (p.0 == Skip ==> TurnBy(es, mode, r) == r.(i := r.i + 1, avbOpen := p.1, script := p.2))
            && (p.0 == Abort ==>
                  TurnBy(es, mode, r) == r.(i := r.i + 1, log := r.log + [NoHandle(r.i)], avbOpen := p.1, script := p.2,
                                            fatal := true))
            && (p.0 == Go ==> TurnBy(es, mode, r) == GroupBy(es, r.(avbOpen := p.1, script := p.2)))
  {
    hide PrepareBy, GroupBy;
  }

  lemma RunStep(es: seq<Entry>, mode: Mode, r: Run)
    requires 0 <= r.i < |es| && !r.fatal
    ensures RunBy(es, mode, r) == RunBy(es, mode, TurnBy(es, mode, r))
  {
    hide TurnBy;
  }

  lemma RunEnd(es: seq<Entry>, mode: Mode, r: Run)
    requires r.i >= |es| || (0 <= r.i && r.fatal)
    ensures RunBy(es, mode, r) == r
  {
  }
}
