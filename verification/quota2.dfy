/** The quota2 netfilter match: a per-rule byte or packet quota that either
    counts down to zero (and then stops matching) or grows without bound,
    optionally shared between rules through a registry of named counters with
    reference counts.

    A counter's quota is an unsigned 64-bit integer and a packet length an
    unsigned 32-bit one; both are modelled as bounded naturals with the
    source's wrap-around written out. The alert that the source raises through
    a uevent work item is reduced to an `alert` flag. */
module Quota2 {
  import opened Wrappers

  // Bits of the rule's `flags` byte (the xt_quota2 user header, which is not
  // part of this model, fixes these values).
  const INVERT: bv8 := 0x01
  const GROW: bv8 := 0x02
  const PACKET: bv8 := 0x04
  const NO_CHANGE: bv8 := 0x08
  const FLAG_MASK: bv8 := 0x0F

  /** Size of the fixed name buffer inside the rule. */
  const NAME_LENGTH := 15

  type NameBuf = s: seq<char> | |s| == NAME_LENGTH witness seq(NAME_LENGTH, _ => '\0')

  /** The rule's match information as iptables hands it to the kernel. */
  datatype MatchInfo = MatchInfo(name: NameBuf, flags: bv8, quota: U64)

  /** What one packet does to a counter. */
  datatype Verdict = Verdict(matched: bool, quota: U64, alert: bool)

  predicate Inverted(flags: bv8) { flags & INVERT != 0 }
  predicate Growing(flags: bv8) { flags & GROW != 0 }
  predicate Frozen(flags: bv8) { flags & NO_CHANGE != 0 }

  /** What one packet of `len` bytes is worth: one in packet mode, else its length. */
  function Cost(flags: bv8, len: U32): U32 {
    if flags & PACKET != 0 then 1 else len
  }

  /** Unsigned 64-bit wrap-around. */
  function Wrap(x: int): U64 { x % U64_LIMIT }

  /** The string a NUL-terminated buffer holds: everything before the first NUL. */
  function CString(buf: seq<char>): (s: string)
    ensures |s| <= |buf| && s == buf[..|s|]
    ensures '\0' !in s
    ensures |s| < |buf| ==> buf[|s|] == '\0'
  {
    if |buf| == 0 || buf[0] == '\0' then [] else [buf[0]] + CString(buf[1..])
  }

  /** The per-packet decision of the match, exactly as the source computes it
      (including its use of the byte length as the countdown threshold in
      packet mode; see `DecideIntended`). */
  function Decide(flags: bv8, quota: U64, len: U32): (v: Verdict)
    // Grow mode: the quota absorbs the packet's cost with 64-bit wrap-around
    // and the rule matches (before inversion) exactly when the new quota is
    // nonzero; a zero quota raises the alert.
    ensures Growing(flags) ==>
              v.quota == (if Frozen(flags) then quota else Wrap(quota + Cost(flags, len)))
              && (v.matched != Inverted(flags) <==> v.quota != 0)
              && (v.alert <==> v.quota == 0)
    // Countdown mode with room for the packet: matches before inversion,
    // no alert, and the quota pays the cost unless frozen.
    ensures !Growing(flags) && quota >= len ==>
              v.matched == !Inverted(flags) && !v.alert
              && (Frozen(flags) ==> v.quota == quota)
              && (!Frozen(flags) && quota >= Cost(flags, len) ==> v.quota == quota - Cost(flags, len))
    // Countdown mode without room: no match before inversion, the quota is
    // emptied, and the alert fires only on the transition from nonzero.
    ensures !Growing(flags) && quota < len ==>
              v.matched == Inverted(flags) && v.quota == 0 && (v.alert <==> quota != 0)
  {
    var ret := Inverted(flags);
    if Growing(flags) then
      var q := if !Frozen(flags) then Wrap(quota + Cost(flags, len)) else quota;
      if q == 0 then Verdict(ret, q, true) else Verdict(!ret, q, false)
    else if quota >= len then
      var q := if !Frozen(flags) then Wrap(quota - Cost(flags, len)) else quota;
      Verdict(!ret, q, false)
    else
      Verdict(ret, 0, quota != 0)
  }

  /** Countdown mode never raises the quota, and for a nonempty packet an
      exhausted quota stays exhausted and never matches before inversion;
      the one exception is the packet-mode wrap shown by
      `PacketCountdownWrapsOnEmptyPacket`. */
  lemma CountdownNeverGrows(flags: bv8, quota: U64, len: U32)
    requires !Growing(flags)
    requires !(flags & PACKET != 0 && !Frozen(flags) && quota == 0 && len == 0)
    ensures Decide(flags, quota, len).quota <= quota
    ensures quota == 0 && len > 0 ==>
              Decide(flags, quota, len).quota == 0 && Decide(flags, quota, len).matched == Inverted(flags)
  {
    if quota >= len && !Frozen(flags) {
      assert Cost(flags, len) <= quota;
    }
  }

  /** In packet mode the countdown threshold is the packet's byte length: a
      quota of ten packets refuses a 1500-byte packet and is emptied. */
  lemma PacketCountdownRefusesLargePacket()
    ensures Decide(PACKET, 10, 1500) == Verdict(false, 0, true)
    ensures DecideIntended(PACKET, 10, 1500) == Verdict(true, 9, false)
  {
  }

  /** In packet mode an empty packet passes the byte threshold of an exhausted
      quota and the decrement by one wraps it to the largest 64-bit value. */
  lemma PacketCountdownWrapsOnEmptyPacket()
    ensures Decide(PACKET, 0, 0).quota == U64_LIMIT - 1
    ensures DecideIntended(PACKET, 0, 0).quota == 0
  {
  }

  /** The decision with the countdown threshold taken in the unit being
      counted: one packet in packet mode, the byte length otherwise. */
  function DecideIntended(flags: bv8, quota: U64, len: U32): (v: Verdict)
    ensures Growing(flags) ==> v == Decide(flags, quota, len)
    ensures flags & PACKET == 0 ==> v == Decide(flags, quota, len)
    ensures !Growing(flags) ==> v.quota <= quota
    ensures !Growing(flags) ==>
              (v.matched != Inverted(flags) <==> quota >= Cost(flags, len))
              && (v.matched != Inverted(flags) && !Frozen(flags) ==> v.quota == quota - Cost(flags, len))
  {
    var ret := Inverted(flags);
    if Growing(flags) then
      Decide(flags, quota, len)
    else if quota >= Cost(flags, len) then
      var q := if !Frozen(flags) then quota - Cost(flags, len) else quota;
      Verdict(!ret, q, false)
    else
      Verdict(ret, 0, quota != 0)
  }

  // ---------------------------------------------------------------------
  // A stream of packets through one counter

  /** The quota left after a stream of packets. */
  function FinalQuota(decide: (bv8, U64, U32) -> Verdict, flags: bv8, quota: U64, lens: seq<U32>): U64
    decreases |lens|
  {
    if |lens| == 0 then quota
    else FinalQuota(decide, flags, decide(flags, quota, lens[0]).quota, lens[1..])
  }

  /** The total cost of the packets the counter admitted (matched before inversion). */
  function AdmittedCost(decide: (bv8, U64, U32) -> Verdict, flags: bv8, quota: U64, lens: seq<U32>): nat
    decreases |lens|
  {
    if |lens| == 0 then 0
    else
      var v := decide(flags, quota, lens[0]);
      (if v.matched != Inverted(flags) then Cost(flags, lens[0]) else 0)
        + AdmittedCost(decide, flags, v.quota, lens[1..])
  }

  /** A countdown byte quota is a budget: the bytes it admits plus what is
      left never exceed the starting quota. */
  lemma {:induction false} CountdownBytesWithinBudget(flags: bv8, quota: U64, lens: seq<U32>)
    requires !Growing(flags) && flags & PACKET == 0 && !Frozen(flags)
    ensures AdmittedCost(Decide, flags, quota, lens) + FinalQuota(Decide, flags, quota, lens) <= quota
    decreases |lens|
  {
    if |lens| > 0 {
      var v := Decide(flags, quota, lens[0]);
      CountdownBytesWithinBudget(flags, v.quota, lens[1..]);
    }
  }

  /** With the intended threshold, a countdown packet quota of n admits
      packets one by one until n of them have passed, whatever their sizes. */
  lemma {:induction false} CountdownPacketsWithinBudget(flags: bv8, quota: U64, lens: seq<U32>)
    requires !Growing(flags) && flags & PACKET != 0 && !Frozen(flags)
    ensures AdmittedCost(DecideIntended, flags, quota, lens) + FinalQuota(DecideIntended, flags, quota, lens) == quota
    ensures AdmittedCost(DecideIntended, flags, quota, lens) == if |lens| <= quota then |lens| else quota
    decreases |lens|
  {
    if |lens| > 0 {
      var v := DecideIntended(flags, quota, lens[0]);
      CountdownPacketsWithinBudget(flags, v.quota, lens[1..]);
    }
  }

  /** The total byte length of a stream. */
  function TotalLength(lens: seq<U32>): nat {
    if |lens| == 0 then 0 else lens[0] + TotalLength(lens[1..])
  }

  /** A growing byte counter ends at the start value plus every byte seen,
      modulo 2^64. */
  lemma {:induction false} GrowCountsEveryByte(flags: bv8, quota: U64, lens: seq<U32>)
    requires Growing(flags) && flags & PACKET == 0 && !Frozen(flags)
    ensures FinalQuota(Decide, flags, quota, lens) == Wrap(quota + TotalLength(lens))
    decreases |lens|
  {
    if |lens| > 0 {
      var q1 := Decide(flags, quota, lens[0]).quota;
      GrowCountsEveryByte(flags, q1, lens[1..]);
      calc {
        FinalQuota(Decide, flags, quota, lens);
        Wrap(q1 + TotalLength(lens[1..]));
        { ModAddLeft(quota + lens[0], TotalLength(lens[1..])); }
        Wrap(quota + lens[0] + TotalLength(lens[1..]));
      }
    }
  }

  lemma ModAddLeft(a: nat, b: nat)
    ensures (a % U64_LIMIT + b) % U64_LIMIT == (a + b) % U64_LIMIT
  {
    var k := a / U64_LIMIT;
    assert a == k * U64_LIMIT + a % U64_LIMIT;
    assert a + b == (a % U64_LIMIT + b) + k * U64_LIMIT;
  }

  // ---------------------------------------------------------------------
  // The registry of named counters

  /** A named counter: its quota and the number of rules sharing it. */
  datatype Counter = Counter(name: string, quota: U64, ref: int)

  /** The list of named counters, in list order. */
  type Registry = seq<Counter>

  /** Where a rule's counter lives: privately in the rule, or in the registry
      under its name. */
  datatype Master = Anonymous(quota: U64) | Shared(name: string)

  /** A checked rule: its (NUL-terminated) match information and its counter. */
  datatype Rule = Rule(info: MatchInfo, master: Master)

  /** Names are unique and nonempty and every counter is referenced. */
  ghost predicate RegistryOk(reg: Registry) {
    (forall i :: 0 <= i < |reg| ==> reg[i].name != [] && reg[i].ref >= 1)
    && (forall i, j :: 0 <= i < j < |reg| ==> reg[i].name != reg[j].name)
  }

  /** The position of the first counter with this name. */
  function Find(reg: Registry, name: string): (r: Option<nat>)
    ensures r.None? <==> forall i :: 0 <= i < |reg| ==> reg[i].name != name
    ensures r.Some? ==> r.value < |reg| && reg[r.value].name == name
                        && forall i :: 0 <= i < r.value ==> reg[i].name != name
  {
    if |reg| == 0 then None
    else if reg[0].name == name then Some(0)
    else match Find(reg[1..], name)
      case None => None
      case Some(i) => Some(i + 1)
  }

  /** Find looks only at names. */
  lemma FindByNames(a: Registry, b: Registry, name: string)
    requires |a| == |b| && forall i :: 0 <= i < |a| ==> a[i].name == b[i].name
    ensures Find(a, name) == Find(b, name)
  {
  }

  /** A counter appended under a name not yet listed is found at the end. */
  lemma {:induction false} FindAppended(reg: Registry, c: Counter)
    requires Find(reg, c.name).None?
    ensures Find(reg + [c], c.name) == Some(|reg|)
    decreases |reg|
  {
    if |reg| > 0 {
      assert (reg + [c])[1..] == reg[1..] + [c];
      FindAppended(reg[1..], c);
    }
  }

  /** Getting a counter for a rule: an anonymous one for an empty name,
      otherwise a new reference to the named counter, creating it at the end
      of the list when the name is new. `allocOk` and `procOk` stand for the
      memory allocation and the procfs entry creation succeeding; on either
      failure no counter is returned and the registry is unchanged. */
  function GetCounter(reg: Registry, q: MatchInfo, allocOk: bool, procOk: bool): (r: Option<(Registry, Master)>)
    ensures CString(q.name) == [] ==>
              r == (if allocOk then Some((reg, Anonymous(q.quota))) else None)
    ensures CString(q.name) != [] && !allocOk ==> r == None
    ensures r.Some? && CString(q.name) != [] ==>
              r.value.1 == Shared(CString(q.name)) && |reg| <= |r.value.0| <= |reg| + 1
    // An existing name: the same counter, one more reference, nothing else changes.
    ensures CString(q.name) != [] && allocOk && Find(reg, CString(q.name)).Some? ==>
              var i := Find(reg, CString(q.name)).value;
              r == Some((reg[i := reg[i].(ref := reg[i].ref + 1)], Shared(CString(q.name))))
    // A new name: appended with the rule's quota and one reference.
    ensures CString(q.name) != [] && Find(reg, CString(q.name)).None? ==>
              r == (if allocOk && procOk
                    then Some((reg + [Counter(CString(q.name), q.quota, 1)], Shared(CString(q.name))))
                    else None)
  {
    var name := CString(q.name);
    if name == [] then
      if allocOk then Some((reg, Anonymous(q.quota))) else None
    else if !allocOk then None
    else match Find(reg, name)
      case Some(i) => Some((reg[i := reg[i].(ref := reg[i].ref + 1)], Shared(name)))
      case None =>
        if procOk then Some((reg + [Counter(name, q.quota, 1)], Shared(name))) else None
  }

  /** The name buffer with its last byte forced to NUL. */
  function Terminated(buf: NameBuf): (t: NameBuf)
    ensures t[NAME_LENGTH - 1] == '\0' && t[..NAME_LENGTH - 1] == buf[..NAME_LENGTH - 1]
  {
    buf[..NAME_LENGTH - 1] + ['\0']
  }

  /** A name a counter may be published under: it does not start with '.'
      and holds no '/'. */
  predicate LegalName(buf: NameBuf) {
    buf[0] != '.' && '/' !in CString(buf)
  }

  /** Validating a rule: only the four known flags, a name that does not start
      with '.' and holds no '/', and a counter to match against. The last
      byte of the name is forced to NUL first. */
  function Check(reg: Registry, q: MatchInfo, allocOk: bool, procOk: bool): (r: Result<(Registry, Rule)>)
    ensures q.flags & !FLAG_MASK != 0 ==> r == Err(EINVAL)
    ensures q.flags & !FLAG_MASK == 0 && !LegalName(Terminated(q.name)) ==> r == Err(EINVAL)
    // A legal rule is accepted exactly when a counter can be had for it, and
    // then with the counter and registry that getting it yields.
    ensures q.flags & !FLAG_MASK == 0 && LegalName(Terminated(q.name)) ==>
              var q' := q.(name := Terminated(q.name));
              var name := CString(q'.name);
              (r.Ok? <==> allocOk && (name == [] || Find(reg, name).Some? || procOk))
              && (r.Err? ==> r == Err(ENOMEM))
              && (r.Ok? ==> GetCounter(reg, q', allocOk, procOk) == Some((r.value.0, r.value.1.master)))
    ensures r.Ok? ==> r.value.1.info.name[NAME_LENGTH - 1] == '\0'
                      && r.value.1.info.name[..NAME_LENGTH - 1] == q.name[..NAME_LENGTH - 1]
                      && r.value.1.info.flags == q.flags && r.value.1.info.quota == q.quota
    ensures r.Ok? ==> var name := CString(r.value.1.info.name);
                      |name| < NAME_LENGTH && (name == [] || name[0] != '.') && '/' !in name
    ensures r.Err? ==> r.errno == EINVAL || r.errno == ENOMEM
  {
    if q.flags & !FLAG_MASK != 0 then Err(EINVAL)
    else
      var name := Terminated(q.name);
      if !LegalName(name) then Err(EINVAL)
      else
        var q' := q.(name := name);
        match GetCounter(reg, q', allocOk, procOk)
        case None => Err(ENOMEM)
        case Some((reg', m)) => Ok((reg', Rule(q', m)))
  }

  /** Destroying a checked rule: an anonymous counter simply goes away; a named
      counter loses one reference and leaves the registry when none remain. */
  function Destroy(reg: Registry, m: Master): (r: Registry)
    requires m.Shared? ==> Find(reg, m.name).Some?
    ensures m.Anonymous? ==> r == reg
    ensures m.Shared? ==>
              var i := Find(reg, m.name).value;
              if reg[i].ref == 1 then r == reg[..i] + reg[i + 1..]
              else r == reg[i := reg[i].(ref := reg[i].ref - 1)]
  {
    match m
    case Anonymous(_) => reg
    case Shared(name) =>
      var i := Find(reg, name).value;
      if reg[i].ref - 1 != 0 then reg[i := reg[i].(ref := reg[i].ref - 1)]
      else reg[..i] + reg[i + 1..]
  }

  /** Getting a counter keeps names unique and references positive. */
  lemma GetCounterKeepsRegistryOk(reg: Registry, q: MatchInfo, allocOk: bool, procOk: bool)
    requires RegistryOk(reg)
    requires GetCounter(reg, q, allocOk, procOk).Some?
    ensures RegistryOk(GetCounter(reg, q, allocOk, procOk).value.0)
    ensures GetCounter(reg, q, allocOk, procOk).value.1.Shared? ==>
              Find(GetCounter(reg, q, allocOk, procOk).value.0, GetCounter(reg, q, allocOk, procOk).value.1.name).Some?
  {
    var name := CString(q.name);
    if name != [] && Find(reg, name).None? {
      var reg' := reg + [Counter(name, q.quota, 1)];
      assert reg'[|reg|].name == name;
      AppendKeepsRegistryOk(reg, Counter(name, q.quota, 1));
      FindAppended(reg, Counter(name, q.quota, 1));
    } else if name != [] && allocOk {
      var i := Find(reg, name).value;
      IncRefKeepsRegistryOk(reg, i);
      FindByNames(reg, reg[i := reg[i].(ref := reg[i].ref + 1)], name);
    }
  }

  lemma AppendKeepsRegistryOk(reg: Registry, c: Counter)
    requires RegistryOk(reg) && c.name != [] && c.ref >= 1 && Find(reg, c.name).None?
    ensures RegistryOk(reg + [c])
  {
    var r := reg + [c];
    assert forall k :: 0 <= k < |reg| ==> r[k] == reg[k];
  }

  lemma IncRefKeepsRegistryOk(reg: Registry, i: nat)
    requires RegistryOk(reg) && i < |reg|
    ensures RegistryOk(reg[i := reg[i].(ref := reg[i].ref + 1)])
  {
  }

  /** Destroying a rule keeps names unique and references positive. */
  lemma DestroyKeepsRegistryOk(reg: Registry, m: Master)
    requires RegistryOk(reg)
    requires m.Shared? ==> Find(reg, m.name).Some?
    ensures RegistryOk(Destroy(reg, m))
  {
    if m.Shared? {
      var i := Find(reg, m.name).value;
      if reg[i].ref == 1 {
        RemoveKeepsRegistryOk(reg, i);
      }
    }
  }

  lemma RemoveKeepsRegistryOk(reg: Registry, i: nat)
    requires RegistryOk(reg) && i < |reg|
    ensures RegistryOk(reg[..i] + reg[i + 1..])
  {
    var r := reg[..i] + reg[i + 1..];
    forall a | 0 <= a < |r| ensures r[a] == reg[if a < i then a else a + 1] {
    }
    forall a, b | 0 <= a < b < |r| ensures r[a].name != r[b].name {
      var a' := if a < i then a else a + 1;
      var b' := if b < i then b else b + 1;
      assert r[a] == reg[a'] && r[b] == reg[b'];
    }
  }

  /** Checking a rule and then destroying it leaves the registry as it was. */
  lemma CheckThenDestroy(reg: Registry, q: MatchInfo, allocOk: bool, procOk: bool)
    requires RegistryOk(reg)
    requires Check(reg, q, allocOk, procOk).Ok?
    ensures var (reg', rule) := Check(reg, q, allocOk, procOk).value;
            (rule.master.Shared? ==> Find(reg', rule.master.name).Some?)
            && Destroy(reg', rule.master) == reg
  {
    var (reg', rule) := Check(reg, q, allocOk, procOk).value;
    var q' := rule.info;
    var name := CString(q'.name);
    GetCounterKeepsRegistryOk(reg, q', allocOk, procOk);
    if name != [] {
      match Find(reg, name)
      case Some(i) =>
        DestroyUndoesIncRef(reg, name, i);
      case None =>
        DestroyUndoesAppend(reg, Counter(name, q.quota, 1));
    }
  }

  /** Dropping the reference just taken on a listed counter restores it. */
  lemma DestroyUndoesIncRef(reg: Registry, name: string, i: nat)
    requires RegistryOk(reg) && Find(reg, name) == Some(i)
    ensures var r := reg[i := reg[i].(ref := reg[i].ref + 1)];
      Find(r, name) == Some(i) && Destroy(r, Shared(name)) == reg
  {
    var c := reg[i];
    var c1 := c.(ref := c.ref + 1);
    var r := reg[i := c1];
    FindByNames(reg, r, name);
    assert r[i] == c1 && c1.ref != 1 && c1.(ref := c1.ref - 1) == c;
    assert r[i := c] == reg;
  }

  /** Dropping the only reference to a counter just appended removes it. */
  lemma DestroyUndoesAppend(reg: Registry, c: Counter)
    requires Find(reg, c.name).None? && c.ref == 1
    ensures Find(reg + [c], c.name) == Some(|reg|) && Destroy(reg + [c], Shared(c.name)) == reg
  {
    FindAppended(reg, c);
    var r := reg + [c];
    assert r[..|reg|] + r[|reg| + 1..] == reg;
  }

  // ---------------------------------------------------------------------
  // A packet against a checked rule

  /** The outcome of one packet against a rule: the registry and the rule's
      counter afterwards, the match result and whether the alert fired. */
  datatype Applied = Applied(reg: Registry, master: Master, matched: bool, alert: bool)

  /** The quota a rule's counter holds. */
  function QuotaOf(reg: Registry, m: Master): U64
    requires m.Shared? ==> Find(reg, m.name).Some?
  {
    match m
    case Anonymous(quota) => quota
    case Shared(name) => reg[Find(reg, name).value].quota
  }

  /** Storing a new quota in a rule's counter. */
  function StoreQuota(reg: Registry, m: Master, quota: U64): (a: (Registry, Master))
    requires m.Shared? ==> Find(reg, m.name).Some?
    ensures (a.1.Shared? ==> Find(a.0, a.1.name).Some?) && QuotaOf(a.0, a.1) == quota
    ensures m.Shared? ==> a.1 == m && |a.0| == |reg|
  {
    match m
    case Anonymous(_) => (reg, Anonymous(quota))
    case Shared(name) =>
      var i := Find(reg, name).value;
      var reg' := reg[i := reg[i].(quota := quota)];
      FindByNames(reg, reg', name);
      (reg', m)
  }

  /** The match as written: the decision is applied to the rule's counter and
      the alert is raised whatever kind of counter it is. The alert writes the
      counter's last-prefix and last-interface fields and schedules its work
      item, which an anonymous counter, allocated only up to its spinlock,
      does not have. */
  function ApplyAsWritten(reg: Registry, rule: Rule, len: U32): (a: Applied)
    requires rule.master.Shared? ==> Find(reg, rule.master.name).Some?
    ensures a.alert == Decide(rule.info.flags, QuotaOf(reg, rule.master), len).alert
  {
    var v := Decide(rule.info.flags, QuotaOf(reg, rule.master), len);
    var (reg', m') := StoreQuota(reg, rule.master, v.quota);
    Applied(reg', m', v.matched, v.alert)
  }

  /** True when the alert would touch fields outside the counter's allocation. */
  predicate AlertOverrunsAllocation(rule: Rule, a: Applied) {
    a.alert && rule.master.Anonymous?
  }

  /** An anonymous countdown rule whose quota runs out raises the alert on a
      counter that has no alert fields. */
  lemma AnonymousAlertOverruns()
    ensures var rule := Rule(MatchInfo(seq(NAME_LENGTH, _ => '\0'), 0, 100), Anonymous(100));
            AlertOverrunsAllocation(rule, ApplyAsWritten([], rule, 1500))
  {
  }

  /** The match with the intended countdown threshold and with the alert only
      for named counters, which carry the alert fields. The registry keeps its
      shape and the rule's counter holds the decided quota. */
  function Apply(reg: Registry, rule: Rule, len: U32): (a: Applied)
    requires rule.master.Shared? ==> Find(reg, rule.master.name).Some?
    ensures !AlertOverrunsAllocation(rule, a)
    ensures a.master.Shared? ==> Find(a.reg, a.master.name).Some?
    ensures |a.reg| == |reg|
    ensures var v := DecideIntended(rule.info.flags, QuotaOf(reg, rule.master), len);
            QuotaOf(a.reg, a.master) == v.quota && a.matched == v.matched
            && a.alert == (v.alert && rule.master.Shared?)
  {
    var v := DecideIntended(rule.info.flags, QuotaOf(reg, rule.master), len);
    var (reg', m') := StoreQuota(reg, rule.master, v.quota);
    Applied(reg', m', v.matched, v.alert && rule.master.Shared?)
  }
}
