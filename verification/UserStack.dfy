/** The initial user stack: strings, pointer arrays and the auxiliary vector as
    they are laid out for a new program, and how `execve` reads them back. The
    stack is a window w of virtual bytes that begins at address base. */
module UserStack {
  import opened Bytes
  import opened Options
  import opened Memory
  import opened AddressSpace

  /** Text without NUL in the seven-bit range, where bytes and characters agree. */
  type Text = s: string | forall i :: 0 <= i < |s| ==> 0 < s[i] as int < 128 witness ""

  datatype Aux = Aux(key: nat, value: nat)

  const AT_NULL: nat := 0
  const AT_RANDOM: nat := 25
  const AT_EXECFN: nat := 31
  const PATH: Text := "PATH=/:/bin/"
  const PLATFORM: Text := "RISC-V64"
  const RANDOM_LOW: nat := 0x0001_0203_0405_0607
  const RANDOM_HIGH: nat := 0x0809_0a0b_0c0d_0e0f

  function AsBytes(s: Text): (b: seq<byte>)
    ensures |b| == |s| && forall i :: 0 <= i < |b| ==> b[i] == s[i] as int && b[i] != 0
  {
    seq(|s|, i requires 0 <= i < |s| => s[i] as int)
  }

  /** A string as stored: its bytes and a NUL. */
  function Terminated(s: Text): (b: seq<byte>)
    ensures |b| == |s| + 1
  {
    AsBytes(s) + [0]
  }

  function WordBytes(ws: seq<nat>): (b: seq<byte>)
    ensures |b| == 8 * |ws|
  {
    if ws == [] then [] else Encode(ws[0], 8) + WordBytes(ws[1..])
  }

  function AuxWords(aux: seq<Aux>): (ws: seq<nat>)
    ensures |ws| == 2 * |aux|
  {
    if aux == [] then [] else [aux[0].key, aux[0].value] + AuxWords(aux[1..])
  }

  // ---------------------------------------------------------------------
  // The window
  // ---------------------------------------------------------------------

  ghost predicate Within(w: seq<byte>, base: nat, at: int, n: nat) {
    base <= at && at + n <= base + |w|
  }

  ghost function Put(w: seq<byte>, base: nat, at: int, data: seq<byte>): (w': seq<byte>)
    requires Within(w, base, at, |data|)
    ensures |w'| == |w|
  {
    Spliced(w, at - base, data)
  }

  ghost predicate HoldsAt(w: seq<byte>, base: nat, at: int, data: seq<byte>) {
    Within(w, base, at, |data|) && w[at - base..at - base + |data|] == data
  }

  /** The bytes from address hi up are the same. */
  ghost predicate SameFrom(w: seq<byte>, w': seq<byte>, base: nat, hi: int) {
    |w'| == |w| && forall k :: 0 <= k < |w| && hi <= base + k ==> w'[k] == w[k]
  }

  /** The bytes below address lo are the same. */
  ghost predicate SameBelow(w: seq<byte>, w': seq<byte>, base: nat, lo: int) {
    |w'| == |w| && forall k :: 0 <= k < |w| && base + k < lo ==> w'[k] == w[k]
  }

  lemma PutHolds(w: seq<byte>, base: nat, at: int, data: seq<byte>)
    requires Within(w, base, at, |data|)
    ensures HoldsAt(Put(w, base, at, data), base, at, data)
    ensures SameFrom(w, Put(w, base, at, data), base, at + |data|) && SameBelow(w, Put(w, base, at, data), base, at)
  {
  }

  /** What lies above later writes stays. */
  lemma StaysAbove(w: seq<byte>, w': seq<byte>, base: nat, hi: int, at: int, data: seq<byte>)
    requires HoldsAt(w, base, at, data) && SameFrom(w, w', base, hi) && hi <= at
    ensures HoldsAt(w', base, at, data)
  {
    assert forall k :: at - base <= k < at - base + |data| ==> w'[k] == w[k];
  }

  lemma HoldsPart(w: seq<byte>, base: nat, at: int, a: seq<byte>, b: seq<byte>)
    ensures HoldsAt(w, base, at, a + b) <==> HoldsAt(w, base, at, a) && HoldsAt(w, base, at + |a|, b)
  {
    if Within(w, base, at, |a + b|) {
      var x := w[at - base..at - base + |a| + |b|];
      assert x[..|a|] == w[at - base..at - base + |a|] && x[|a|..] == w[at + |a| - base..at + |a| - base + |b|];
      assert (a + b)[..|a|] == a && (a + b)[|a|..] == b;
      assert x == x[..|a|] + x[|a|..];
    }
  }

  // ---------------------------------------------------------------------
  // Writing strings
  // ---------------------------------------------------------------------

  function Size(strs: seq<Text>): nat {
    if strs == [] then 0 else |strs[0]| + 1 + Size(strs[1..])
  }

  datatype Pushed = Pushed(w: seq<byte>, sp: int, ptrs: seq<nat>)

  /** `push_stack`: each string below the one before it. */
  ghost function PushStrings(w: seq<byte>, base: nat, sp: int, strs: seq<Text>): Pushed
    requires base <= sp - Size(strs) && sp <= base + |w|
    decreases |strs|
  {
    if strs == [] then Pushed(w, sp, [])
    else
      var at := sp - (|strs[0]| + 1);
      var rest := PushStrings(Put(w, base, at, Terminated(strs[0])), base, at, strs[1..]);
      Pushed(rest.w, rest.sp, [at] + rest.ptrs)
  }

  /** Each string with its NUL ends where the one before begins, the first at sp. */
  ghost predicate Stacked(ptrs: seq<nat>, strs: seq<Text>, sp: int) {
    |ptrs| == |strs| && forall i :: 0 <= i < |strs| ==> ptrs[i] + |strs[i]| + 1 == if i == 0 then sp else ptrs[i - 1]
  }

  /** Every string is where its address says. */
  ghost predicate StringsAt(w: seq<byte>, base: nat, ptrs: seq<nat>, strs: seq<Text>) {
    |ptrs| == |strs| && forall i :: 0 <= i < |strs| ==> HoldsAt(w, base, ptrs[i], Terminated(strs[i]))
  }

  ghost predicate AllFrom(ptrs: seq<nat>, lo: int) {
    forall i :: 0 <= i < |ptrs| ==> lo <= ptrs[i]
  }

  lemma StringsStay(w: seq<byte>, w': seq<byte>, base: nat, hi: int, ptrs: seq<nat>, strs: seq<Text>)
    requires StringsAt(w, base, ptrs, strs) && SameFrom(w, w', base, hi) && AllFrom(ptrs, hi)
    ensures StringsAt(w', base, ptrs, strs)
  {
    forall i | 0 <= i < |strs|
      ensures HoldsAt(w', base, ptrs[i], Terminated(strs[i]))
    {
      StaysAbove(w, w', base, hi, ptrs[i], Terminated(strs[i]));
    }
  }

  /** No string overwrites an earlier one. */
  lemma {:induction false} PushedStrings(w: seq<byte>, base: nat, sp: int, strs: seq<Text>)
    requires base <= sp - Size(strs) && sp <= base + |w|
    ensures var r := PushStrings(w, base, sp, strs);
      && r.sp == sp - Size(strs) && StringsAt(r.w, base, r.ptrs, strs) && AllFrom(r.ptrs, r.sp)
      && SameFrom(w, r.w, base, sp) && SameBelow(w, r.w, base, r.sp)
    decreases |strs|
  {
    if strs != [] {
      var at := sp - (|strs[0]| + 1);
      var w1 := Put(w, base, at, Terminated(strs[0]));
      PutHolds(w, base, at, Terminated(strs[0]));
      PushedStrings(w1, base, at, strs[1..]);
      var rest := PushStrings(w1, base, at, strs[1..]);
      StaysAbove(w1, rest.w, base, at, at, Terminated(strs[0]));
      forall i | 0 <= i < |strs|
        ensures HoldsAt(rest.w, base, ([at] + rest.ptrs)[i], Terminated(strs[i]))
      {
        if i > 0 { assert strs[i] == strs[1..][i - 1]; }
      }
    }
  }

  /** The strings lie one below the other without a gap. */
  lemma {:induction false} PushedStacked(w: seq<byte>, base: nat, sp: int, strs: seq<Text>)
    requires base <= sp - Size(strs) && sp <= base + |w|
    ensures Stacked(PushStrings(w, base, sp, strs).ptrs, strs, sp)
    decreases |strs|
  {
    if strs != [] {
      var at := sp - (|strs[0]| + 1);
      var w1 := Put(w, base, at, Terminated(strs[0]));
      PushedStacked(w1, base, at, strs[1..]);
      StackedCons(PushStrings(w1, base, at, strs[1..]).ptrs, strs, at, sp);
    }
  }

  lemma StackedCons(ptrs: seq<nat>, strs: seq<Text>, at: nat, sp: int)
    requires strs != [] && Stacked(ptrs, strs[1..], at) && at + |strs[0]| + 1 == sp
    ensures Stacked([at] + ptrs, strs, sp)
  {
    var all := [at] + ptrs;
    forall i | 0 <= i < |strs|
      ensures all[i] + |strs[i]| + 1 == if i == 0 then sp else all[i - 1]
    {
      if i > 0 {
        assert strs[i] == strs[1..][i - 1] && all[i] == ptrs[i - 1];
        assert i > 1 ==> all[i - 1] == ptrs[i - 2];
      }
    }
  }

  // ---------------------------------------------------------------------
  // Reading back
  // ---------------------------------------------------------------------

  /** `translated_str`: characters up to the first NUL; None if it runs out of
      the window. */
  ghost function ReadStr(w: seq<byte>, base: nat, at: int): Option<string>
    decreases base + |w| - at
  {
    if !Within(w, base, at, 1) then None
    else if w[at - base] == 0 then Some("")
    else match ReadStr(w, base, at + 1)
      case None => None
      case Some(s) => Some([w[at - base] as char] + s)
  }

  ghost function WordAt(w: seq<byte>, base: nat, at: int): nat
    requires Within(w, base, at, 8)
  {
    Decode(w[at - base..at - base + 8])
  }

  /** The pointer-array loop of `execve`: strings up to the null pointer. */
  ghost function ReadArray(w: seq<byte>, base: nat, at: int): Option<seq<string>>
    decreases base + |w| - at
  {
    if !Within(w, base, at, 8) then None
    else if WordAt(w, base, at) == 0 then Some([])
    else match (ReadStr(w, base, WordAt(w, base, at)), ReadArray(w, base, at + 8))
      case (Some(s), Some(rest)) => Some([s] + rest)
      case _ => None
  }

  /** The auxiliary vector up to its AT_NULL entry. */
  ghost function ReadAux(w: seq<byte>, base: nat, at: int): Option<seq<Aux>>
    decreases base + |w| - at
  {
    if !Within(w, base, at, 16) then None
    else if WordAt(w, base, at) == AT_NULL then Some([])
    else match ReadAux(w, base, at + 16)
      case None => None
      case Some(rest) => Some([Aux(WordAt(w, base, at), WordAt(w, base, at + 8))] + rest)
  }

  lemma {:induction false} ReadStrIs(w: seq<byte>, base: nat, at: int, s: Text)
    requires HoldsAt(w, base, at, Terminated(s))
    ensures ReadStr(w, base, at) == Some(s)
    decreases |s|
  {
    var b := Terminated(s);
    assert b[0] == w[at - base..at - base + |b|][0] == w[at - base];
    if |s| > 0 {
      var t: Text := s[1..];
      assert b == [b[0]] + Terminated(t);
      HoldsPart(w, base, at, [b[0]], Terminated(t));
      ReadStrIs(w, base, at + 1, t);
      assert s == [s[0]] + t;
    }
  }

  lemma HeldThen(w: seq<byte>, base: nat, at: int, a: seq<byte>, rest: seq<byte>)
    requires |a| == 8 && HoldsAt(w, base, at, a + rest)
    ensures Within(w, base, at, 8) && WordAt(w, base, at) == Decode(a) && HoldsAt(w, base, at + 8, rest)
  {
    HoldsPart(w, base, at, a, rest);
  }

  lemma WordHeld(w: seq<byte>, base: nat, at: int, ws: seq<nat>)
    requires ws != [] && ws[0] < WORD && HoldsAt(w, base, at, WordBytes(ws))
    ensures Within(w, base, at, 8) && WordAt(w, base, at) == ws[0]
    ensures HoldsAt(w, base, at + 8, WordBytes(ws[1..]))
  {
    DecodeWord(ws[0]);
    HeldThen(w, base, at, Encode(ws[0], 8), WordBytes(ws[1..]));
  }

  ghost predicate Words(ws: seq<nat>) {
    forall i :: 0 <= i < |ws| ==> ws[i] < WORD
  }

  lemma ReadArrayStep(w: seq<byte>, base: nat, at: int, s: Text, rest: seq<Text>)
    requires Within(w, base, at, 8) && WordAt(w, base, at) != 0
    requires HoldsAt(w, base, WordAt(w, base, at), Terminated(s)) && ReadArray(w, base, at + 8) == Some(rest)
    ensures ReadArray(w, base, at) == Some([s] + rest)
  {
    ReadStrIs(w, base, WordAt(w, base, at), s);
  }

  lemma NullLast(ptrs: seq<nat>)
    ensures (ptrs + [0])[0] == if ptrs == [] then 0 else ptrs[0]
    ensures ptrs != [] ==> (ptrs + [0])[1..] == ptrs[1..] + [0]
  {
  }

  /** The first word of a pointer array and the array after it. */
  lemma ArrayHeld(w: seq<byte>, base: nat, at: int, ptrs: seq<nat>)
    requires HoldsAt(w, base, at, WordBytes(ptrs + [0])) && Words(ptrs)
    ensures Within(w, base, at, 8) && WordAt(w, base, at) == if ptrs == [] then 0 else ptrs[0]
    ensures ptrs != [] ==> HoldsAt(w, base, at + 8, WordBytes(ptrs[1..] + [0]))
  {
    NullLast(ptrs);
    WordHeld(w, base, at, ptrs + [0]);
  }

  lemma {:induction false} ReadArrayIs(w: seq<byte>, base: nat, at: int, ptrs: seq<nat>, strs: seq<Text>)
    requires HoldsAt(w, base, at, WordBytes(ptrs + [0])) && StringsAt(w, base, ptrs, strs)
    requires Words(ptrs) && AllFrom(ptrs, 1)
    ensures ReadArray(w, base, at) == Some(strs)
    decreases |ptrs|
  {
    ArrayHeld(w, base, at, ptrs);
    if ptrs != [] {
      assert StringsAt(w, base, ptrs[1..], strs[1..]);
      ReadArrayIs(w, base, at + 8, ptrs[1..], strs[1..]);
      assert strs == [strs[0]] + strs[1..];
      ReadArrayStep(w, base, at, strs[0], strs[1..]);
    }
  }

  ghost predicate AuxOk(aux: seq<Aux>) {
    forall i :: 0 <= i < |aux| ==> aux[i].key < WORD && aux[i].value < WORD && aux[i].key != AT_NULL
  }

  lemma AuxHeld(w: seq<byte>, base: nat, at: int, aux: seq<Aux>)
    requires aux != [] && HoldsAt(w, base, at, WordBytes(AuxWords(aux))) && aux[0].key < WORD && aux[0].value < WORD
    ensures Within(w, base, at, 16) && WordAt(w, base, at) == aux[0].key && WordAt(w, base, at + 8) == aux[0].value
    ensures HoldsAt(w, base, at + 16, WordBytes(AuxWords(aux[1..])))
  {
    var ws := AuxWords(aux);
    WordHeld(w, base, at, ws);
    WordHeld(w, base, at + 8, ws[1..]);
    assert ws[1..][1..] == AuxWords(aux[1..]);
  }

  lemma {:induction false} ReadAuxIs(w: seq<byte>, base: nat, at: int, aux: seq<Aux>)
    requires HoldsAt(w, base, at, WordBytes(AuxWords(aux + [Aux(AT_NULL, 0)]))) && AuxOk(aux)
    ensures ReadAux(w, base, at) == Some(aux)
    decreases |aux|
  {
    var all := aux + [Aux(AT_NULL, 0)];
    AuxHeld(w, base, at, all);
    if aux != [] {
      assert all[1..] == aux[1..] + [Aux(AT_NULL, 0)];
      ReadAuxIs(w, base, at + 16, aux[1..]);
      assert aux == [aux[0]] + aux[1..];
    }
  }

  // ---------------------------------------------------------------------
  // The whole stack
  // ---------------------------------------------------------------------

  /** Round an address down to a multiple of 8. */
  function Down8(a: int): (d: int)
    ensures a - 8 < d <= a && d % 8 == 0
  {
    a - a % 8
  }

  function Down16(a: int): (d: int)
    ensures a - 16 < d <= a && d % 16 == 0
  {
    a - a % 16
  }

  /** Where the upper parts go, from high to low addresses. */
  datatype Places = Places(envEnd: int, argEnd: int, argStart: int, platform: int, random: int)

  function UpperPlaces(sp: int, argv: seq<Text>, envs: seq<Text>): (p: Places)
    ensures p.argStart <= p.argEnd <= p.envEnd - Size(envs) && p.envEnd < sp
    ensures p.random + 16 == p.platform && p.platform + |PLATFORM| + 1 <= p.argStart && p.platform % 8 == 0
  {
    var argEnd := Down8(sp - 16 - Size(envs));
    var argStart := argEnd - Size(argv);
    var platform := Down8(Down8(argStart) - (|PLATFORM| + 1));
    Places(sp - 16, argEnd, argStart, platform, platform - 16)
  }

  /** Where the vectors below them begin: nAll auxiliary entries and two pointer
      arrays of nEnv and nArg words. */
  datatype Bases = Bases(aux: int, envp: int, argv: int, argc: int)

  function LowerBases(random: int, nAll: nat, nEnv: nat, nArg: nat): (b: Bases)
    ensures b.argc + 8 == b.argv && b.argv + 8 * nArg == b.envp && b.envp + 8 * nEnv == b.aux
    ensures b.aux + 16 * nAll <= random && b.aux % 16 == 0
  {
    var aux := Down16(random) - 16 * nAll;
    var envp := aux - 8 * nEnv;
    Bases(aux, envp, envp - 8 * nArg, envp - 8 * nArg - 8)
  }

  function BasesOf(sp: int, argv: seq<Text>, envs: seq<Text>, nAux: nat): Bases {
    LowerBases(UpperPlaces(sp, argv, envs).random, nAux + 3, |envs| + 1, |argv| + 1)
  }

  /** Everything fits between base and the end of the window. */
  ghost predicate Fits(w: seq<byte>, base: nat, sp: int, argv: seq<Text>, envp: seq<Text>, aux: seq<Aux>) {
    && 0 < base && base + |w| < WORD && sp <= base + |w|
    && base <= BasesOf(sp, argv, envp + [PATH], |aux|).argc
    && AuxOk(aux)
  }

  /** The strings, then the platform name and the random bytes. The pointer
      arrays end with null. */
  datatype Upper = Upper(w: seq<byte>, args: seq<nat>, envs: seq<nat>)

  lemma PushedSp(w: seq<byte>, base: nat, sp: int, strs: seq<Text>)
    requires base <= sp - Size(strs) && sp <= base + |w|
    ensures var r := PushStrings(w, base, sp, strs);
      r.sp == sp - Size(strs) && |r.w| == |w| && |r.ptrs| == |strs|
  {
    PushedStrings(w, base, sp, strs);
  }

  ghost function BuildUpper(w: seq<byte>, base: nat, sp: int, argv: seq<Text>, envs: seq<Text>): (u: Upper)
    requires base <= UpperPlaces(sp, argv, envs).random && sp <= base + |w|
    ensures |u.w| == |w| && |u.args| == |argv| + 1 && |u.envs| == |envs| + 1
  {
    var p := UpperPlaces(sp, argv, envs);
    PushedSp(w, base, p.envEnd, envs);
    var e := PushStrings(w, base, p.envEnd, envs);
    PushedSp(e.w, base, p.argEnd, argv);
    var a := PushStrings(e.w, base, p.argEnd, argv);
    Upper(PutTail(a.w, base, p), a.ptrs + [0], e.ptrs + [0])
  }

  ghost function PutTail(w: seq<byte>, base: nat, p: Places): (w': seq<byte>)
    requires base <= p.random && p.random + 16 == p.platform && p.platform + |PLATFORM| + 1 <= base + |w|
    ensures |w'| == |w|
  {
    Put(Put(w, base, p.platform, Terminated(PLATFORM)), base, p.random, WordBytes([RANDOM_LOW, RANDOM_HIGH]))
  }

  /** The auxiliary vector, the two pointer arrays and argc. */
  ghost function BuildLower(w: seq<byte>, base: nat, b: Bases, u: Upper, argc: nat, all: seq<Aux>): (w': seq<byte>)
    requires base <= b.argc && b.argc + 8 <= b.argv && b.argv + 8 * |u.args| <= b.envp
    requires b.envp + 8 * |u.envs| <= b.aux && b.aux + 16 * |all| <= base + |w|
    ensures |w'| == |w|
  {
    PutArrays(Put(w, base, b.aux, WordBytes(AuxWords(all))), base, b, u.args, u.envs, argc)
  }

  ghost function PutArrays(w: seq<byte>, base: nat, b: Bases, args: seq<nat>, envs: seq<nat>, argc: nat): (w': seq<byte>)
    requires base <= b.argc && b.argc + 8 <= b.argv && b.argv + 8 * |args| <= b.envp && b.envp + 8 * |envs| <= base + |w|
    ensures |w'| == |w|
  {
    var w1 := Put(w, base, b.envp, WordBytes(envs));
    var w2 := Put(w1, base, b.argv, WordBytes(args));
    Put(w2, base, b.argc, WordBytes([argc]))
  }

  /** The auxiliary vector as written, with the entries the kernel appends. */
  function FullAux(aux: seq<Aux>, random: nat, execfn: nat): seq<Aux> {
    aux + [Aux(AT_RANDOM, random), Aux(AT_EXECFN, execfn)]
  }

  datatype Built = Built(w: seq<byte>, sp: int, argc: nat, argv: int, envp: int, aux: int)

  ghost function BuildStack(w: seq<byte>, base: nat, sp: int, argv: seq<Text>, envp: seq<Text>, aux: seq<Aux>): Built
    requires Fits(w, base, sp, argv, envp, aux)
  {
    var b := BasesOf(sp, argv, envp + [PATH], |aux|);
    var u := BuildUpper(w, base, sp, argv, envp + [PATH]);
    var all := FullAux(aux, UpperPlaces(sp, argv, envp + [PATH]).random, u.args[0]) + [Aux(AT_NULL, 0)];
    Built(BuildLower(u.w, base, b, u, |argv|, all), b.argc, |argv|, b.argv, b.envp, b.aux)
  }

  // ---------------------------------------------------------------------
  // Every part is in place
  // ---------------------------------------------------------------------

  /** A pointer array with its null, and the strings it leads to. */
  ghost predicate Leads(w: seq<byte>, base: nat, ptrs: seq<nat>, strs: seq<Text>, lo: int) {
    |ptrs| == |strs| + 1 && ptrs[|strs|] == 0 && StringsAt(w, base, ptrs[..|strs|], strs) && AllFrom(ptrs[..|strs|], lo)
  }

  lemma LeadsStay(w: seq<byte>, w': seq<byte>, base: nat, ptrs: seq<nat>, strs: seq<Text>, lo: int, hi: int)
    requires Leads(w, base, ptrs, strs, lo) && SameFrom(w, w', base, hi) && hi <= lo
    ensures Leads(w', base, ptrs, strs, lo)
  {
    StringsStay(w, w', base, hi, ptrs[..|strs|], strs);
  }

  ghost predicate TailAt(w: seq<byte>, base: nat, p: Places) {
    HoldsAt(w, base, p.platform, Terminated(PLATFORM)) && HoldsAt(w, base, p.random, WordBytes([RANDOM_LOW, RANDOM_HIGH]))
  }

  lemma TailPut(w: seq<byte>, base: nat, p: Places)
    requires base <= p.random && p.random + 16 == p.platform && p.platform + |PLATFORM| + 1 <= base + |w|
    ensures var w' := PutTail(w, base, p);
      && TailAt(w', base, p) && SameFrom(w, w', base, p.platform + |PLATFORM| + 1) && SameBelow(w, w', base, p.random)
  {
    var w1 := Put(w, base, p.platform, Terminated(PLATFORM));
    PutHolds(w, base, p.platform, Terminated(PLATFORM));
    PutHolds(w1, base, p.random, WordBytes([RANDOM_LOW, RANDOM_HIGH]));
    StaysAbove(w1, PutTail(w, base, p), base, p.platform, p.platform, Terminated(PLATFORM));
  }

  /** The upper part after it is written. */
  lemma UpperBuilt(w: seq<byte>, base: nat, sp: int, argv: seq<Text>, envs: seq<Text>)
    requires base <= UpperPlaces(sp, argv, envs).random && sp <= base + |w|
    ensures var p := UpperPlaces(sp, argv, envs); var u := BuildUpper(w, base, sp, argv, envs);
      && Leads(u.w, base, u.args, argv, p.random) && Leads(u.w, base, u.envs, envs, p.random) && TailAt(u.w, base, p)
      && SameFrom(w, u.w, base, sp) && SameBelow(w, u.w, base, p.random)
  {
    var p := UpperPlaces(sp, argv, envs);
    var e := PushStrings(w, base, p.envEnd, envs);
    PushedStrings(w, base, p.envEnd, envs);
    assert (e.ptrs + [0])[..|envs|] == e.ptrs;
    var a := PushStrings(e.w, base, p.argEnd, argv);
    PushedStrings(e.w, base, p.argEnd, argv);
    assert (a.ptrs + [0])[..|argv|] == a.ptrs;
    LeadsStay(e.w, a.w, base, e.ptrs + [0], envs, p.argEnd, p.argEnd);
    TailPut(a.w, base, p);
    var w2 := PutTail(a.w, base, p);
    LeadsStay(a.w, w2, base, a.ptrs + [0], argv, p.argStart, p.argStart);
    LeadsStay(a.w, w2, base, e.ptrs + [0], envs, p.argEnd, p.argStart);
  }

  /** Four writes, each below the one before, leave all four in place. */
  lemma Descending(w: seq<byte>, base: nat, a1: int, d1: seq<byte>, a2: int, d2: seq<byte>, a3: int, d3: seq<byte>, a4: int, d4: seq<byte>)
    requires base <= a4 && a4 + |d4| <= a3 && a3 + |d3| <= a2 && a2 + |d2| <= a1 && a1 + |d1| <= base + |w|
    ensures var w4 := Put(Put(Put(Put(w, base, a1, d1), base, a2, d2), base, a3, d3), base, a4, d4);
      && HoldsAt(w4, base, a1, d1) && HoldsAt(w4, base, a2, d2) && HoldsAt(w4, base, a3, d3) && HoldsAt(w4, base, a4, d4)
      && SameFrom(w, w4, base, a1 + |d1|) && SameBelow(w, w4, base, a4)
  {
    var w1 := Put(w, base, a1, d1);
    PutHolds(w, base, a1, d1);
    var w2 := Put(w1, base, a2, d2);
    PutHolds(w1, base, a2, d2);
    var w3 := Put(w2, base, a3, d3);
    PutHolds(w2, base, a3, d3);
    var w4 := Put(w3, base, a4, d4);
    PutHolds(w3, base, a4, d4);
    assert SameFrom(w1, w4, base, a1) && SameFrom(w2, w4, base, a2);
    StaysAbove(w1, w4, base, a1, a1, d1);
    StaysAbove(w2, w4, base, a2, a2, d2);
    StaysAbove(w3, w4, base, a3, a3, d3);
  }

  ghost predicate VectorsAt(w: seq<byte>, base: nat, b: Bases, u: Upper, argc: nat, all: seq<Aux>) {
    && HoldsAt(w, base, b.aux, WordBytes(AuxWords(all)))
    && HoldsAt(w, base, b.envp, WordBytes(u.envs)) && HoldsAt(w, base, b.argv, WordBytes(u.args))
    && HoldsAt(w, base, b.argc, WordBytes([argc]))
  }

  /** The whole stack: every part is where its address says. */
  ghost predicate InPlace(w: seq<byte>, base: nat, p: Places, b: Bases, u: Upper, argv: seq<Text>, envs: seq<Text>, all: seq<Aux>) {
    && Leads(w, base, u.args, argv, p.random) && Leads(w, base, u.envs, envs, p.random) && TailAt(w, base, p)
    && VectorsAt(w, base, b, u, |argv|, all)
  }

  lemma LowerBuilt(w: seq<byte>, base: nat, p: Places, b: Bases, u: Upper, argv: seq<Text>, envs: seq<Text>, all: seq<Aux>)
    requires base <= b.argc && b.argc + 8 <= b.argv && b.argv + 8 * |u.args| <= b.envp
    requires b.envp + 8 * |u.envs| <= b.aux && b.aux + 16 * |all| <= p.random < base + |w| && p.random <= p.platform
    requires Leads(w, base, u.args, argv, p.random) && Leads(w, base, u.envs, envs, p.random) && TailAt(w, base, p)
    ensures var w' := BuildLower(w, base, b, u, |argv|, all);
      && InPlace(w', base, p, b, u, argv, envs, all) && SameFrom(w, w', base, p.random) && SameBelow(w, w', base, b.argc)
  {
    var w' := BuildLower(w, base, b, u, |argv|, all);
    Descending(w, base, b.aux, WordBytes(AuxWords(all)), b.envp, WordBytes(u.envs), b.argv, WordBytes(u.args), b.argc, WordBytes([|argv|]));
    StaysAbove(w, w', base, p.random, p.platform, Terminated(PLATFORM));
    StaysAbove(w, w', base, p.random, p.random, WordBytes([RANDOM_LOW, RANDOM_HIGH]));
    LeadsStay(w, w', base, u.args, argv, p.random, p.random);
    LeadsStay(w, w', base, u.envs, envs, p.random, p.random);
  }

  /** No later write overlaps an earlier one. */
  lemma StackInPlace(w: seq<byte>, base: nat, sp: int, argv: seq<Text>, envp: seq<Text>, aux: seq<Aux>)
    requires Fits(w, base, sp, argv, envp, aux)
    ensures var p := UpperPlaces(sp, argv, envp + [PATH]); var u := BuildUpper(w, base, sp, argv, envp + [PATH]);
      var b := BasesOf(sp, argv, envp + [PATH], |aux|); var r := BuildStack(w, base, sp, argv, envp, aux);
      && InPlace(r.w, base, p, b, u, argv, envp + [PATH], FullAux(aux, p.random, u.args[0]) + [Aux(AT_NULL, 0)])
      && SameFrom(w, r.w, base, sp) && SameBelow(w, r.w, base, r.sp)
  {
    var p := UpperPlaces(sp, argv, envp + [PATH]);
    var u := BuildUpper(w, base, sp, argv, envp + [PATH]);
    UpperBuilt(w, base, sp, argv, envp + [PATH]);
    LowerBuilt(u.w, base, p, BasesOf(sp, argv, envp + [PATH], |aux|), u, argv, envp + [PATH],
               FullAux(aux, p.random, u.args[0]) + [Aux(AT_NULL, 0)]);
  }

  // ---------------------------------------------------------------------
  // Round trips
  // ---------------------------------------------------------------------

  lemma ReadsStrings(w: seq<byte>, base: nat, at: int, ptrs: seq<nat>, strs: seq<Text>, lo: int)
    requires 0 < base && base + |w| < WORD && Leads(w, base, ptrs, strs, lo) && HoldsAt(w, base, at, WordBytes(ptrs))
    ensures ReadArray(w, base, at) == Some(strs)
  {
    var ps := ptrs[..|strs|];
    assert ptrs == ps + [0];
    forall i | 0 <= i < |ps|
      ensures 1 <= ps[i] < WORD
    {
      assert HoldsAt(w, base, ps[i], Terminated(strs[i]));
    }
    ReadArrayIs(w, base, at, ps, strs);
  }

  lemma ReadsArgc(w: seq<byte>, base: nat, sp: int, argv: seq<Text>, envp: seq<Text>, aux: seq<Aux>)
    requires Fits(w, base, sp, argv, envp, aux)
    ensures var r := BuildStack(w, base, sp, argv, envp, aux);
      HoldsAt(r.w, base, r.sp, WordBytes([|argv|])) ==> Within(r.w, base, r.sp, 8) && WordAt(r.w, base, r.sp) == |argv|
  {
    var r := BuildStack(w, base, sp, argv, envp, aux);
    if HoldsAt(r.w, base, r.sp, WordBytes([|argv|])) {
      WordHeld(r.w, base, r.sp, [|argv|]);
    }
  }

  /** What `execve` reads at the returned addresses is what the stack was built
      from; argc, both arrays and the auxiliary vector follow each other from the
      stack pointer up, where a C library looks for them; and nothing outside the
      stack is written. */
  lemma RoundTrip(w: seq<byte>, base: nat, sp: int, argv: seq<Text>, envp: seq<Text>, aux: seq<Aux>)
    requires Fits(w, base, sp, argv, envp, aux)
    ensures var b := BuildStack(w, base, sp, argv, envp, aux);
      && ReadArray(b.w, base, b.argv) == Some(argv)
      && ReadArray(b.w, base, b.envp) == Some(envp + [PATH])
      && Within(b.w, base, b.sp, 8) && WordAt(b.w, base, b.sp) == |argv| == b.argc
      && b.argv == b.sp + 8 && b.envp == b.argv + 8 * (|argv| + 1) && b.aux == b.envp + 8 * (|envp| + 2) && b.aux % 16 == 0
      && SameFrom(w, b.w, base, sp) && SameBelow(w, b.w, base, b.sp)
  {
    var p := UpperPlaces(sp, argv, envp + [PATH]);
    var u := BuildUpper(w, base, sp, argv, envp + [PATH]);
    var b := BuildStack(w, base, sp, argv, envp, aux);
    StackInPlace(w, base, sp, argv, envp, aux);
    ReadsStrings(b.w, base, b.argv, u.args, argv, p.random);
    ReadsStrings(b.w, base, b.envp, u.envs, envp + [PATH], p.random);
    ReadsArgc(w, base, sp, argv, envp, aux);
  }

  /** The appended auxiliary entries: the random bytes and the program's name. */
  ghost predicate Appended(w: seq<byte>, base: nat, argv: seq<Text>, random: nat, name: nat) {
    && HoldsAt(w, base, random, [7, 6, 5, 4, 3, 2, 1, 0, 15, 14, 13, 12, 11, 10, 9, 8])
    && (if argv == [] then name == 0 else ReadStr(w, base, name) == Some(argv[0]))
  }

  /** The random bytes as they lie in memory. */
  lemma RandomBytes()
    ensures WordBytes([RANDOM_LOW, RANDOM_HIGH]) == [7, 6, 5, 4, 3, 2, 1, 0, 15, 14, 13, 12, 11, 10, 9, 8]
  {
    RandomLow();
    RandomHigh();
    assert [RANDOM_LOW, RANDOM_HIGH][1..] == [RANDOM_HIGH];
    assert WordBytes([RANDOM_HIGH]) == Encode(RANDOM_HIGH, 8) + WordBytes([]);
  }

  lemma EncodeCons(n: nat, q: nat, r: nat, k: nat)
    requires n == 256 * q + r && r < 256 && k > 0
    ensures Encode(n, k) == [r] + Encode(q, k - 1)
  {
  }

  lemma EncodeFour(n: nat, b0: nat, b1: nat, b2: nat, b3: nat, q: nat, k: nat)
    requires b0 < 256 && b1 < 256 && b2 < 256 && b3 < 256 && k >= 4
    requires n == b0 + 0x100 * b1 + 0x1_0000 * b2 + 0x100_0000 * b3 + 0x1_0000_0000 * q
    ensures Encode(n, k) == [b0, b1, b2, b3] + Encode(q, k - 4)
  {
    var n3 := b3 + 256 * q;
    var n2 := b2 + 256 * n3;
    var n1 := b1 + 256 * n2;
    EncodeCons(n, n1, b0, k);
    EncodeCons(n1, n2, b1, k - 1);
    EncodeCons(n2, n3, b2, k - 2);
    EncodeCons(n3, q, b3, k - 3);
  }

  lemma RandomLow()
    ensures Encode(RANDOM_LOW, 8) == [7, 6, 5, 4, 3, 2, 1, 0]
  {
    EncodeFour(RANDOM_LOW, 7, 6, 5, 4, 0x1_0203, 8);
    EncodeFour(0x1_0203, 3, 2, 1, 0, 0, 4);
  }

  lemma RandomHigh()
    ensures Encode(RANDOM_HIGH, 8) == [15, 14, 13, 12, 11, 10, 9, 8]
  {
    EncodeFour(RANDOM_HIGH, 15, 14, 13, 12, 0x809_0a0b, 8);
    EncodeFour(0x809_0a0b, 11, 10, 9, 8, 0, 4);
  }

  lemma NameRead(w: seq<byte>, base: nat, ptrs: seq<nat>, argv: seq<Text>, lo: int)
    requires base + |w| < WORD && Leads(w, base, ptrs, argv, lo)
    ensures ptrs[0] < WORD && if argv == [] then ptrs[0] == 0 else ReadStr(w, base, ptrs[0]) == Some(argv[0])
  {
    if argv != [] {
      assert HoldsAt(w, base, ptrs[..|argv|][0], Terminated(argv[0]));
      ReadStrIs(w, base, ptrs[0], argv[0]);
    }
  }

  lemma ReadsFullAux(w: seq<byte>, base: nat, at: int, aux: seq<Aux>, random: nat, name: nat)
    requires AuxOk(aux) && random < WORD && name < WORD
    requires HoldsAt(w, base, at, WordBytes(AuxWords(FullAux(aux, random, name) + [Aux(AT_NULL, 0)])))
    ensures ReadAux(w, base, at) == Some(FullAux(aux, random, name))
  {
    ReadAuxIs(w, base, at, FullAux(aux, random, name));
  }

  /** The auxiliary vector reads back in order, up to AT_NULL. */
  lemma AuxRoundTrip(w: seq<byte>, base: nat, sp: int, argv: seq<Text>, envp: seq<Text>, aux: seq<Aux>) returns (random: nat, name: nat)
    requires Fits(w, base, sp, argv, envp, aux)
    ensures var b := BuildStack(w, base, sp, argv, envp, aux);
      && ReadAux(b.w, base, b.aux) == Some(aux + [Aux(AT_RANDOM, random), Aux(AT_EXECFN, name)])
      && Appended(b.w, base, argv, random, name)
  {
    var p := UpperPlaces(sp, argv, envp + [PATH]);
    var u := BuildUpper(w, base, sp, argv, envp + [PATH]);
    var b := BuildStack(w, base, sp, argv, envp, aux);
    StackInPlace(w, base, sp, argv, envp, aux);
    NameRead(b.w, base, u.args, argv, p.random);
    RandomBytes();
    random, name := p.random, u.args[0];
    ReadsFullAux(b.w, base, b.aux, aux, random, name);
  }
}
