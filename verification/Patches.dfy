/** Patching code in place: the assertion-trap loop of crates/core/src/linker/mod.rs and
    `patch_syscalls` of crates/core/src/hle/dispatcher.rs. Each loop rewrites exactly the
    occurrences present before it started, and leaves none. */
module Patches {
  import opened Bytes

  /** mov eax, 0x0A; nop */
  const REPLACEMENT: seq<byte> := [0xB8, 0x0A, 0x00, 0x00, 0x00, 0x90]

  /** test eax,eax; jne +2; int 0x41 */
  predicate TrapAt(s: seq<byte>, i: nat) {
    && i + 6 <= |s|
    && s[i] == 0x85 && s[i + 1] == 0xC0 && s[i + 2] == 0x75
    && s[i + 3] == 0x02 && s[i + 4] == 0xCD && s[i + 5] == 0x41
  }

  /** Byte `j` belongs to the occurrence at `i`. */
  predicate InTrap(s: seq<byte>, i: nat, j: nat) {
    i <= j < i + 6 && TrapAt(s, i)
  }

  /** Occurrences never overlap: the pattern's bytes are all different. */
  lemma TrapsApart(s: seq<byte>, i: nat, k: nat)
    requires TrapAt(s, i) && TrapAt(s, k) && i < k
    ensures i + 6 <= k
  {
    assert s[k] == 0x85;
  }

  /** `t` is `s` with every occurrence of the pattern, and nothing else, rewritten. */
  ghost predicate TrapsPatched(s: seq<byte>, t: seq<byte>) {
    && |t| == |s|
    && (forall i: nat, j: nat | InTrap(s, i, j) :: t[j] == REPLACEMENT[j - i])
    && (forall j | 0 <= j < |s| && (forall i: nat :: !InTrap(s, i, j)) :: t[j] == s[j])
  }

  ghost function TrapCount(s: seq<byte>, n: nat): nat {
    if n == 0 then 0 else TrapCount(s, n - 1) + (if TrapAt(s, n - 1) then 1 else 0)
  }

  ghost function PatchTraps(s: seq<byte>): (t: seq<byte>)
    ensures TrapsPatched(s, t)
  {
    var t := seq(|s|, j requires 0 <= j < |s| =>
                   if exists i: nat :: InTrap(s, i, j) then (var i: nat :| InTrap(s, i, j); REPLACEMENT[j - i]) else s[j]);
    assert TrapsPatched(s, t) by {
      forall i: nat, j: nat | InTrap(s, i, j)
        ensures t[j] == REPLACEMENT[j - i]
      {
        OneTrap(s, i, j);
      }
    }
    t
  }

  lemma OneTrap(s: seq<byte>, i: nat, j: nat)
    requires InTrap(s, i, j)
    ensures forall k: nat | InTrap(s, k, j) :: k == i
  {
    forall k: nat | InTrap(s, k, j)
      ensures k == i
    {
      assert s[i] == 0x85 && s[k] == 0x85;
    }
  }

  /** A position is either outside every occurrence or inside exactly one. */
  lemma PatchIsUnique(s: seq<byte>, t: seq<byte>, u: seq<byte>)
    requires TrapsPatched(s, t) && TrapsPatched(s, u)
    ensures t == u
  {
    forall j | 0 <= j < |s|
      ensures t[j] == u[j]
    {
      if i: nat :| InTrap(s, i, j) {
        assert t[j] == REPLACEMENT[j - i] == u[j];
      }
    }
  }

  /** One occurrence in its context: its bytes become `mov eax, 0x0A; nop`, and what stands on
      either side is patched on its own. */
  lemma TrapInContext(a: seq<byte>, b: seq<byte>)
    ensures PatchTraps(a + [0x85, 0xC0, 0x75, 0x02, 0xCD, 0x41] + b)
            == PatchTraps(a) + [0xB8, 0x0A, 0x00, 0x00, 0x00, 0x90] + PatchTraps(b)
  {
    hide PatchTraps, TrapAt;
    var s := a + [0x85, 0xC0, 0x75, 0x02, 0xCD, 0x41] + b;
    var t := PatchTraps(a) + [0xB8, 0x0A, 0x00, 0x00, 0x00, 0x90] + PatchTraps(b);
    forall i: nat, j: nat | InTrap(s, i, j)
      ensures j < |s| && t[j] == REPLACEMENT[j - i]
    {
      RewrittenInContext(a, b, s, PatchTraps(a), PatchTraps(b), t, i, j);
    }
    forall j | 0 <= j < |s| && (forall i: nat :: !InTrap(s, i, j))
      ensures t[j] == s[j]
    {
      KeptInContext(a, b, s, PatchTraps(a), PatchTraps(b), t, j);
    }
    PatchIsUnique(s, t, PatchTraps(s));
  }

  ghost predicate InContext(a: seq<byte>, b: seq<byte>, s: seq<byte>, ta: seq<byte>, tb: seq<byte>, t: seq<byte>) {
    && TrapsPatched(a, ta) && TrapsPatched(b, tb)
    && s == a + [0x85, 0xC0, 0x75, 0x02, 0xCD, 0x41] + b
    && t == ta + REPLACEMENT + tb
  }

  lemma RewrittenInContext(a: seq<byte>, b: seq<byte>, s: seq<byte>, ta: seq<byte>, tb: seq<byte>, t: seq<byte>,
                           i: nat, j: nat)
    requires InContext(a, b, s, ta, tb, t) && InTrap(s, i, j)
    ensures j < |s| == |t| && t[j] == REPLACEMENT[j - i]
  {
    TrapsOfContext(a, b, s);
    TrapFits(s, i);
    JoinedAt(ta, REPLACEMENT, tb, j);
    hide TrapAt;
    var n := |a| + 6;
    if i < |a| {
      TrapFits(a, i);
      assert InTrap(a, i, j);
    } else if i > |a| {
      assert InTrap(b, i - n, j - n);
    }
  }

  lemma JoinedAt(x: seq<byte>, y: seq<byte>, z: seq<byte>, j: nat)
    requires j < |x + y + z|
    ensures (x + y + z)[j] == if j < |x| then x[j] else if j < |x| + |y| then y[j - |x|] else z[j - |x| - |y|]
  {
  }

  lemma TrapFits(s: seq<byte>, i: nat)
    requires TrapAt(s, i)
    ensures i + 6 <= |s|
  {
  }

  lemma KeptInContext(a: seq<byte>, b: seq<byte>, s: seq<byte>, ta: seq<byte>, tb: seq<byte>, t: seq<byte>, j: nat)
    requires InContext(a, b, s, ta, tb, t) && j < |s| && forall i: nat :: !InTrap(s, i, j)
    ensures |s| == |t| && t[j] == s[j]
  {
    JoinedAt(ta, REPLACEMENT, tb, j);
    JoinedAt(a, [0x85, 0xC0, 0x75, 0x02, 0xCD, 0x41], b, j);
    OutsideParts(a, b, s, j);
    hide InTrap;
  }

  lemma OutsideParts(a: seq<byte>, b: seq<byte>, s: seq<byte>, j: nat)
    requires s == a + [0x85, 0xC0, 0x75, 0x02, 0xCD, 0x41] + b
    requires forall i: nat :: !InTrap(s, i, j)
    ensures j < |a| || j >= |a| + 6
    ensures j < |a| ==> forall i: nat :: !InTrap(a, i, j)
    ensures var n := |a| + 6; var k := j - n; k >= 0 ==> forall i: nat :: !InTrap(b, i, k)
  {
    TrapsOfContext(a, b, s);
    hide TrapAt;
    var n := |a| + 6;
    var k := j - n;
    assert !InTrap(s, |a|, j);
    forall i: nat
      ensures j < |a| ==> !InTrap(a, i, j)
    {
      assert !InTrap(s, i, j);
    }
    forall i: nat
      ensures k >= 0 ==> !InTrap(b, i, k)
    {
      assert !InTrap(s, i + n, j);
    }
  }

  lemma TrapsOfContext(a: seq<byte>, b: seq<byte>, s: seq<byte>)
    requires s == a + [0x85, 0xC0, 0x75, 0x02, 0xCD, 0x41] + b
    ensures TrapAt(s, |a|)
    ensures forall i: nat | TrapAt(a, i) :: TrapAt(s, i)
    ensures forall i: nat | TrapAt(b, i) :: TrapAt(s, i + (|a| + 6))
    ensures forall i: nat | TrapAt(s, i) ::
              if i < |a| then TrapAt(a, i) else i == |a| || (i >= |a| + 6 && TrapAt(b, i - (|a| + 6)))
  {
    forall i: nat | TrapAt(s, i)
      ensures if i < |a| then TrapAt(a, i) else i == |a| || (i >= |a| + 6 && TrapAt(b, i - (|a| + 6)))
    {
      if i < |a| {
        TrapsApart(s, i, |a|);
      } else if i > |a| {
        TrapsApart(s, |a|, i);
      }
    }
  }

  /** No occurrence survives, and none is made where rewritten and untouched bytes meet. */
  lemma NoTrapRemains(s: seq<byte>, t: seq<byte>, k: nat)
    requires TrapsPatched(s, t)
    ensures !TrapAt(t, k)
  {
    forall j | k <= j < k + 6 && j < |t| && !Written(t[j])
      ensures t[j] == s[j]
    {
      OutsideTraps(s, t, j);
    }
    assert TrapAt(t, k) ==> TrapAt(s, k);
    assert TrapAt(s, k) ==> InTrap(s, k, k);
  }

  /** The bytes a patch writes; none of them is in the pattern. */
  predicate Written(b: byte) {
    b == 0xB8 || b == 0x0A || b == 0x00 || b == 0x90
  }

  lemma OutsideTraps(s: seq<byte>, t: seq<byte>, j: nat)
    requires TrapsPatched(s, t) && j < |s|
    ensures !Written(t[j]) ==> t[j] == s[j]
  {
    if i: nat :| InTrap(s, i, j) {
      assert t[j] == REPLACEMENT[j - i];
      assert j - i == 0 || j - i == 1 || j - i == 2 || j - i == 3 || j - i == 4 || j - i == 5;
    }
  }

  /** Patching patched code changes nothing. */
  lemma PatchIsIdempotent(s: seq<byte>, t: seq<byte>, u: seq<byte>)
    requires TrapsPatched(s, t) && TrapsPatched(t, u)
    ensures u == t
  {
    forall k: nat
      ensures !TrapAt(t, k)
    {
      NoTrapRemains(s, t, k);
    }
  }

  /** The loop's progress: bytes below `i` are final, the rest untouched, and no occurrence
      straddles `i`. */
  ghost predicate TrapProgress(s: seq<byte>, t: seq<byte>, i: nat) {
    && |t| == |s|
    && (forall k: nat | k < i && TrapAt(s, k) :: k + 6 <= i)
    && (forall k: nat, j: nat | InTrap(s, k, j) && k < i :: t[j] == REPLACEMENT[j - k])
    && (forall j | 0 <= j < |s| && (j >= i || forall k: nat :: !InTrap(s, k, j)) :: t[j] == s[j])
  }

  lemma TrapMiss(s: seq<byte>, t: seq<byte>, i: nat)
    requires TrapProgress(s, t, i) && !TrapAt(s, i)
    ensures TrapProgress(s, t, i + 1)
    ensures TrapCount(s, i + 1) == TrapCount(s, i)
  {
  }

  lemma TrapHit(s: seq<byte>, t: seq<byte>, u: seq<byte>, i: nat)
    requires TrapProgress(s, t, i) && TrapAt(s, i) && |u| == |t|
    requires forall j | 0 <= j < |t| :: u[j] == if i <= j < i + 6 then REPLACEMENT[j - i] else t[j]
    ensures TrapProgress(s, u, i + 6)
    ensures TrapCount(s, i + 6) == TrapCount(s, i) + 1
  {
    forall k: nat | i < k < i + 6
      ensures !TrapAt(s, k)
    {
      if TrapAt(s, k) {
        TrapsApart(s, i, k);
      }
    }
    TrapCountSkip(s, i);
    forall k: nat, j: nat | InTrap(s, k, j) && k < i + 6
      ensures u[j] == REPLACEMENT[j - k]
    {
    }
    forall j | 0 <= j < |s| && (j >= i + 6 || forall k: nat :: !InTrap(s, k, j))
      ensures u[j] == s[j]
    {
      assert i <= j < i + 6 ==> InTrap(s, i, j);
    }
  }

  lemma TrapCountSkip(s: seq<byte>, i: nat)
    requires TrapAt(s, i) && forall k: nat | i < k < i + 6 :: !TrapAt(s, k)
    ensures TrapCount(s, i + 6) == TrapCount(s, i) + 1
  {
    assert TrapCount(s, i + 1) == TrapCount(s, i) + 1;
    assert TrapCount(s, i + 2) == TrapCount(s, i + 1);
    assert TrapCount(s, i + 3) == TrapCount(s, i + 2);
    assert TrapCount(s, i + 4) == TrapCount(s, i + 3);
    assert TrapCount(s, i + 5) == TrapCount(s, i + 4);
  }

  lemma {:induction false} TrapsDone(s: seq<byte>, t: seq<byte>, i: nat, n: nat)
    requires TrapProgress(s, t, i) && i + 5 >= |s| && n >= i
    ensures TrapsPatched(s, t)
    ensures TrapCount(s, n) == TrapCount(s, i)
  {
    if n > i {
      TrapsDone(s, t, i, n - 1);
    }
  }

  /** Scan for the trap pattern and rewrite each occurrence, stepping over what was written. */
  method PatchAssertionTraps(code: array<byte>) returns (patched: nat)
    modifies code
    ensures TrapsPatched(old(code[..]), code[..])
    ensures patched == TrapCount(old(code[..]), code.Length)
  {
    hide TrapProgress, TrapsPatched, TrapCount;
    ghost var s := code[..];
    patched := 0;
    var i := 0;
    TrapStart(s);
    while i + 5 < code.Length
      invariant TrapProgress(s, code[..], i)
      invariant patched == TrapCount(s, i)
    {
      TrapUnchanged(s, code[..], i);
      if && code[i] == 0x85 && code[i + 1] == 0xC0 && code[i + 2] == 0x75
         && code[i + 3] == 0x02 && code[i + 4] == 0xCD && code[i + 5] == 0x41
      {
        ghost var t := code[..];
        code[i] := 0xB8;
        code[i + 1] := 0x0A;
        code[i + 2] := 0x00;
        code[i + 3] := 0x00;
        code[i + 4] := 0x00;
        code[i + 5] := 0x90;
        TrapHit(s, t, code[..], i);
        patched := patched + 1;
        i := i + 6;
      } else {
        TrapMiss(s, code[..], i);
        i := i + 1;
      }
    }
    TrapsDone(s, code[..], i, if i < code.Length then code.Length else i);
    TrapCountEnd(s, i);
  }

  lemma TrapStart(s: seq<byte>)
    ensures TrapProgress(s, s, 0) && TrapCount(s, 0) == 0
  {
  }

  lemma TrapUnchanged(s: seq<byte>, t: seq<byte>, i: nat)
    requires TrapProgress(s, t, i)
    ensures TrapAt(s, i) == TrapAt(t, i)
  {
    assert forall j | i <= j < |s| :: t[j] == s[j];
  }

  /** Counting past the end adds nothing. */
  lemma {:induction false} TrapCountEnd(s: seq<byte>, n: nat)
    ensures n >= |s| ==> TrapCount(s, n) == TrapCount(s, |s|)
  {
    if n > |s| {
      TrapCountEnd(s, n - 1);
    }
  }

  /** The count is the number of occurrences. */
  lemma {:induction false} TrapCountIsSize(s: seq<byte>, n: nat)
    ensures TrapCount(s, n) == |set i | 0 <= i < n && TrapAt(s, i)|
  {
    if n > 0 {
      TrapCountIsSize(s, n - 1);
      var before, now := set i | 0 <= i < n - 1 && TrapAt(s, i), set i | 0 <= i < n && TrapAt(s, i);
      assert now == before + (if TrapAt(s, n - 1) then {n - 1} else {});
    }
  }

  // ---------------------------------------------------------------------------
  // System calls
  // ---------------------------------------------------------------------------

  /** The second byte of a `syscall` instruction stands at `i`. */
  predicate SyscallEnds(s: seq<byte>, i: nat) {
    0 < i < |s| && s[i - 1] == 0x0F && s[i] == 0x05
  }

  /** Every `syscall` became `ud2`; nothing else changed. */
  ghost function SyscallsPatched(s: seq<byte>): (t: seq<byte>)
    ensures |t| == |s|
  {
    seq(|s|, i requires 0 <= i < |s| => if SyscallEnds(s, i) then 0x0B else s[i])
  }

  ghost function SyscallCount(s: seq<byte>, n: nat): nat {
    if n == 0 then 0 else SyscallCount(s, n - 1) + (if SyscallEnds(s, n - 1) then 1 else 0)
  }

  /** The count is the number of occurrences. */
  lemma {:induction false} SyscallCountIsSize(s: seq<byte>, n: nat)
    ensures SyscallCount(s, n) == |set i | 0 <= i < n && SyscallEnds(s, i)|
  {
    if n > 0 {
      SyscallCountIsSize(s, n - 1);
      var before, now := set i | 0 <= i < n - 1 && SyscallEnds(s, i), set i | 0 <= i < n && SyscallEnds(s, i);
      assert now == before + (if SyscallEnds(s, n - 1) then {n - 1} else {});
    }
  }

  /** No `syscall` remains, so patching again changes nothing. */
  lemma NoSyscallRemains(s: seq<byte>)
    ensures forall i: nat :: !SyscallEnds(SyscallsPatched(s), i)
    ensures SyscallsPatched(SyscallsPatched(s)) == SyscallsPatched(s)
  {
    var t := SyscallsPatched(s);
    forall i: nat
      ensures !SyscallEnds(t, i)
    {
      if 0 < i < |s| {
        assert t[i - 1] == 0x0F ==> s[i - 1] == 0x0F;
      }
    }
  }

  /** One instruction in its context: it becomes `ud2`, and what stands on either side is
      patched on its own. */
  lemma SyscallInContext(a: seq<byte>, b: seq<byte>)
    ensures SyscallsPatched(a + [0x0F, 0x05] + b) == SyscallsPatched(a) + [0x0F, 0x0B] + SyscallsPatched(b)
  {
    var s, n := a + [0x0F, 0x05] + b, |a| + 2;
    var t := SyscallsPatched(a) + [0x0F, 0x0B] + SyscallsPatched(b);
    forall x | 0 <= x < |s|
      ensures t[x] == if SyscallEnds(s, x) then 0x0B else s[x]
    {
      if x < |a| {
        assert SyscallEnds(s, x) == SyscallEnds(a, x);
      } else if x >= n {
        assert s[x] == b[x - n] && (x > n ==> s[x - 1] == b[x - n - 1]);
        assert SyscallEnds(s, x) == SyscallEnds(b, x - n);
      }
    }
    assert SyscallsPatched(s) == t;
  }

  /** Bytes survive patching exactly when no `syscall` ends among them. */
  lemma SurvivesIff(s: seq<byte>, p: nat, n: nat)
    requires p + n <= |s|
    ensures SyscallsPatched(s)[p..p + n] == s[p..p + n] <==> forall i | p <= i < p + n :: !SyscallEnds(s, i)
  {
    var t := SyscallsPatched(s);
    if t[p..p + n] == s[p..p + n] {
      forall i | p <= i < p + n
        ensures !SyscallEnds(s, i)
      {
        assert t[i] == t[p..p + n][i - p] == s[p..p + n][i - p] == s[i];
      }
    }
  }

  /** Patch the `syscall` instructions of a non-empty region. */
  method PatchSyscalls(memory: array<byte>) returns (patched: nat)
    requires memory.Length >= 1
    modifies memory
    ensures memory[..] == SyscallsPatched(old(memory[..]))
    ensures patched == SyscallCount(old(memory[..]), memory.Length)
  {
    ghost var s := memory[..];
    patched := 0;
    var offset := 0;
    while offset < memory.Length - 1
      invariant 0 <= offset <= memory.Length - 1
      invariant forall j | 0 <= j < memory.Length ::
                  memory[j] == if j <= offset && SyscallEnds(s, j) then 0x0B else s[j]
      invariant patched == SyscallCount(s, offset + 1)
    {
      var b1, b2 := memory[offset], memory[offset + 1];
      if b1 == 0x0F && b2 == 0x05 {
        memory[offset + 1] := 0x0B;
        patched := patched + 1;
      }
      offset := offset + 1;
    }
  }
}
