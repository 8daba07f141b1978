/** Building the initial stack in a user address space, one translated store at
    a time, and reading it back the way `execve` does. */
module StackBuilder {
  import opened Bytes
  import opened Options
  import opened Memory
  import opened Address
  import opened PageTable
  import opened AddressSpace
  import opened Seqs
  import opened UserStack
  import Frames

  ghost predicate ShowsAt(mem: Mem, owned: map<nat, nat>, base: nat, w: seq<byte>, va: nat) {
    && base <= va < base + |w| && va / PAGE_SIZE in owned && HasFrame(mem, owned[va / PAGE_SIZE])
    && ByteAt(mem, owned, va) == w[va - base]
  }

  /** The virtual bytes from base on are w. */
  ghost predicate Shows(mem: Mem, owned: map<nat, nat>, base: nat, w: seq<byte>) {
    forall va: nat :: base <= va < base + |w| ==> ShowsAt(mem, owned, base, w, va)
  }

  /** A store into one page shows as the same store into the window. */
  lemma ShowsPut(mem: Mem, owned: map<nat, nat>, base: nat, w: seq<byte>, at: nat, data: seq<byte>)
    requires Injective(owned) && Shows(mem, owned, base, w) && Within(w, base, at, |data|)
    requires at / PAGE_SIZE in owned && HasFrame(mem, owned[at / PAGE_SIZE]) && at % PAGE_SIZE + |data| <= PAGE_SIZE
    ensures var ppn := owned[at / PAGE_SIZE];
      Shows(mem[ppn := Spliced(mem[ppn], at % PAGE_SIZE, data)], owned, base, Put(w, base, at, data))
  {
    var ppn := owned[at / PAGE_SIZE];
    var mem' := mem[ppn := Spliced(mem[ppn], at % PAGE_SIZE, data)];
    forall va: nat | base <= va < base + |w|
      ensures ShowsAt(mem', owned, base, Put(w, base, at, data), va)
    {
      assert ShowsAt(mem, owned, base, w, va);
      SplicePage(mem, owned, at / PAGE_SIZE, at % PAGE_SIZE, data, va);
    }
  }

  /** The bytes of pages lo to hi. */
  ghost function View(mem: Mem, owned: map<nat, nat>, lo: nat, hi: nat): (w: seq<byte>)
    requires lo <= hi
    ensures |w| == (hi - lo) * PAGE_SIZE && forall k :: 0 <= k < |w| ==> w[k] == ByteOrZero(mem, owned, lo * PAGE_SIZE + k)
  {
    seq<byte>((hi - lo) * PAGE_SIZE, (k: nat) => ByteOrZero(mem, owned, lo * PAGE_SIZE + k))
  }

  ghost function ByteOrZero(mem: Mem, owned: map<nat, nat>, va: nat): byte {
    if va / PAGE_SIZE in owned && HasFrame(mem, owned[va / PAGE_SIZE]) then ByteAt(mem, owned, va) else 0
  }

  ghost predicate FrameIn(owned: map<nat, nat>, pages: set<nat>, va: nat) {
    va / PAGE_SIZE in owned && owned[va / PAGE_SIZE] in pages
  }

  /** The n bytes from base on lie in these frames. */
  ghost predicate FramesIn(owned: map<nat, nat>, pages: set<nat>, base: nat, n: nat) {
    forall va: nat :: base <= va < base + n ==> FrameIn(owned, pages, va)
  }

  lemma ViewShows(mem: Mem, owned: map<nat, nat>, lo: nat, hi: nat)
    requires lo <= hi && Owns(mem, owned, lo, hi)
    ensures Shows(mem, owned, lo * PAGE_SIZE, View(mem, owned, lo, hi))
    ensures FramesIn(owned, PageFrames(owned, lo, hi), lo * PAGE_SIZE, (hi - lo) * PAGE_SIZE)
  {
    var w, base := View(mem, owned, lo, hi), lo * PAGE_SIZE;
    forall va: nat | base <= va < base + |w|
      ensures ShowsAt(mem, owned, base, w, va) && FrameIn(owned, PageFrames(owned, lo, hi), va)
    {
      assert lo <= va / PAGE_SIZE < hi;
      assert w[va - base] == ByteOrZero(mem, owned, base + (va - base));
    }
  }

  function AuxBytes(a: Aux): (b: seq<byte>)
    ensures |b| == 16
  {
    Encode(a.key, 8) + Encode(a.value, 8)
  }

  lemma AuxAligned(random: nat, n: nat)
    ensures (Down16(random) - 16 * n) % 8 == 0
  {
  }

  /** Pages of an address space, seen as the window w of virtual bytes. */
  class Window {
    const space: Space
    const m: Frames.Machine
    const base: nat
    ghost const pages: set<nat>
    ghost const mem0: Mem
    ghost var w: seq<byte>

    /** The window shows the pages' bytes, and no other frame has changed. */
    ghost predicate Valid()
      reads this, m, space`owned, space.table
    {
      && space.Valid(m) && Shows(m.mem, space.owned, base, w)
      && FramesIn(space.owned, pages, base, |w|)
      && Untouched(mem0, m.mem, mem0.Keys - pages)
    }

    /** The window over pages lo to hi. */
    constructor (space: Space, m: Frames.Machine, lo: nat, hi: nat)
      requires space.Valid(m) && lo <= hi && Owns(m.mem, space.owned, lo, hi)
      ensures Valid() && this.space == space && this.m == m
      ensures base == lo * PAGE_SIZE && |w| == (hi - lo) * PAGE_SIZE
      ensures pages == PageFrames(space.owned, lo, hi) && mem0 == m.mem
    {
      this.space, this.m, base := space, m, lo * PAGE_SIZE;
      pages, mem0 := PageFrames(space.owned, lo, hi), m.mem;
      w := View(m.mem, space.owned, lo, hi);
      ViewShows(m.mem, space.owned, lo, hi);
    }

    /** The frame and offset an address of the window translates to. */
    method Locate(va: nat) returns (ppn: nat, off: nat)
      requires Valid() && base <= va < base + |w|
      ensures va / PAGE_SIZE in space.owned && ppn == space.owned[va / PAGE_SIZE] && ppn in pages && off == va % PAGE_SIZE
    {
      assert FrameIn(space.owned, pages, va);
      LowAddress(va);
      var pa := space.table.TranslateVa(m, VirtAddr(va));
      PhysicalParts(space.owned[va / PAGE_SIZE], va % PAGE_SIZE);
      ppn, off := pa.value / PAGE_SIZE, pa.value % PAGE_SIZE;
    }

    /** `*translated_refmut(token, va) = ..`: a store that stays within a page. */
    method Store(va: nat, data: seq<byte>)
      requires Valid() && data != [] && Within(w, base, va, |data|) && va % PAGE_SIZE + |data| <= PAGE_SIZE
      modifies m`mem, this`w
      ensures Valid() && w == Put(old(w), base, va, data)
    {
      var ppn, off := Locate(va);
      assert ShowsAt(m.mem, space.owned, base, w, va);
      ShowsPut(m.mem, space.owned, base, w, va, data);
      space.StorePage(m, va / PAGE_SIZE, ppn, Spliced(m.mem[ppn], off, data));
      w := Put(w, base, va, data);
    }

    method StoreNext(ghost before: seq<byte>, at: nat, bytes: seq<byte>, n: nat)
      requires Valid() && n < |bytes| && Within(before, base, at, |bytes|) && w == Put(before, base, at, bytes[..n])
      modifies m`mem, this`w
      ensures Valid() && |w| == |before| && w == Put(before, base, at, bytes[..n + 1])
    {
      PutByte(before, base, at, bytes, n);
      Store(at + n, [bytes[n]]);
    }

    /** Bytes one by one. */
    method StoreBytes(at: nat, bytes: seq<byte>)
      requires Valid() && Within(w, base, at, |bytes|)
      modifies m`mem, this`w
      ensures Valid() && w == Put(old(w), base, at, bytes)
    {
      ghost var before := w;
      var p := at;
      PutNothing(w, base, at);
      while p < at + |bytes|
        invariant at <= p <= at + |bytes| && Valid() && |w| == |before|
        invariant w == Put(before, base, at, bytes[..p - at])
      {
        StoreNext(before, at, bytes, p - at);
        p := p + 1;
      }
      assert bytes[..p - at] == bytes;
    }

    /** A string and its NUL, byte by byte. */
    method WriteString(at: nat, str: Text)
      requires Valid() && Within(w, base, at, |str| + 1)
      modifies m`mem, this`w
      ensures Valid() && w == Put(old(w), base, at, Terminated(str))
    {
      var bytes := AsBytes(str);
      PutMore(w, base, at, bytes, [0]);
      StoreBytes(at, bytes);
      Store(at + |bytes|, [0]);
    }

    /** Push one string below the last. */
    method PushOne(ghost w0: seq<byte>, ghost sp: int, userSp: nat, parms: seq<Text>, index: nat, ghost ptrs: seq<nat>) returns (at: nat)
      requires Valid() && base <= sp - Size(parms) && sp <= base + |w0| && index < |parms|
      requires PushedSoFar(w0, base, sp, w, userSp, parms, index, ptrs)
      modifies m`mem, this`w
      ensures Valid() && PushedSoFar(w0, base, sp, w, at, parms, index + 1, ptrs + [at])
    {
      PushedStep(w0, base, sp, w, userSp, parms, index, ptrs);
      at := userSp - (|parms[index]| + 1);
      WriteString(at, parms[index]);
    }

    /** `push_stack`: the strings one below the other; the addresses end with null. */
    method PushStack(sp: nat, parms: seq<Text>) returns (userSp: nat, ptrs: seq<nat>)
      requires Valid() && base <= sp - Size(parms) && sp <= base + |w|
      modifies m`mem, this`w
      ensures Valid() && Pushed(w, userSp, ptrs) == PushStrings(old(w), base, sp, parms).(ptrs := PushStrings(old(w), base, sp, parms).ptrs + [0])
    {
      userSp, ptrs := sp, [];
      var index := 0;
      assert parms[0..] == parms;
      while index < |parms|
        invariant 0 <= index <= |parms| && Valid() && PushedSoFar(old(w), base, sp, w, userSp, parms, index, ptrs)
      {
        userSp := PushOne(old(w), sp, userSp, parms, index, ptrs);
        ptrs := ptrs + [userSp];
        index := index + 1;
      }
      ptrs := ptrs + [0];
    }

    method WriteWord(va: nat, v: nat)
      requires Valid() && Within(w, base, va, 8) && va % 8 == 0
      modifies m`mem, this`w
      ensures Valid() && w == Put(old(w), base, va, Encode(v, 8))
    {
      Store(va, Encode(v, 8));
    }

    /** A pointer array, eight bytes each. */
    method WriteWords(at: nat, words: seq<nat>)
      requires Valid() && Within(w, base, at, 8 * |words|) && at % 8 == 0
      modifies m`mem, this`w
      ensures Valid() && w == Put(old(w), base, at, WordBytes(words))
    {
      var i := 0;
      PutNothing(w, base, at);
      while i < |words|
        invariant 0 <= i <= |words| && Valid() && |w| == |old(w)|
        invariant w == Put(old(w), base, at, WordBytes(words[..i]))
      {
        WordsSnoc(words, i);
        Steps8(at, i);
        PutMore(old(w), base, at, WordBytes(words[..i]), Encode(words[i], 8));
        WriteWord(at + 8 * i, words[i]);
        i := i + 1;
      }
      assert words[..i] == words;
    }

    /** One auxiliary entry: its type, then its value. */
    method WriteEntry(va: nat, a: Aux)
      requires Valid() && Within(w, base, va, 16) && va % 8 == 0
      modifies m`mem, this`w
      ensures Valid() && w == Put(old(w), base, va, AuxBytes(a))
    {
      PutMore(w, base, va, Encode(a.key, 8), Encode(a.value, 8));
      WriteWord(va, a.key);
      WriteWord(va + 8, a.value);
    }

    /** The auxiliary vector, sixteen bytes an entry. */
    method WriteAux(at: nat, aux: seq<Aux>)
      requires Valid() && Within(w, base, at, 16 * |aux|) && at % 8 == 0
      modifies m`mem, this`w
      ensures Valid() && w == Put(old(w), base, at, WordBytes(AuxWords(aux)))
    {
      var i := 0;
      PutNothing(w, base, at);
      while i < |aux|
        invariant 0 <= i <= |aux| && Valid() && |w| == |old(w)|
        invariant w == Put(old(w), base, at, WordBytes(AuxWords(aux[..i])))
      {
        AuxSnoc(aux, i);
        Steps8(at, 2 * i);
        PutMore(old(w), base, at, WordBytes(AuxWords(aux[..i])), AuxBytes(aux[i]));
        WriteEntry(at + 16 * i, aux[i]);
        i := i + 1;
      }
      assert aux[..i] == aux;
    }

    /** The two groups of strings. */
    method PushBoth(ghost p: Places, envEnd: nat, argv: seq<Text>, envs: seq<Text>) returns (sp: int, args: seq<nat>, envPtrs: seq<nat>)
      requires p.envEnd == envEnd && p.argEnd == Down8(envEnd - Size(envs)) && p.argStart == p.argEnd - Size(argv)
      requires Valid() && base <= p.argStart && envEnd <= base + |w|
      modifies m`mem, this`w
      ensures Valid() && |w| == |old(w)| && sp == p.argStart
      ensures var e := PushStrings(old(w), base, p.envEnd, envs);
        && envPtrs == e.ptrs + [0] && |e.w| == |w|
        && var a := PushStrings(e.w, base, p.argEnd, argv);
           w == a.w && args == a.ptrs + [0]
    {
      PushedSp(w, base, envEnd, envs);
      sp, envPtrs := PushStack(envEnd, envs);
      sp := Down8(sp);
      PushedSp(w, base, sp, argv);
      sp, args := PushStack(sp, argv);
    }

    /** Platform name and random bytes. */
    method WriteTail(ghost p: Places, platform: nat) returns (random: nat)
      requires Valid() && base <= p.random && p.random + 16 == p.platform && p.platform + |PLATFORM| + 1 <= base + |w|
      requires platform == p.platform && platform % 8 == 0
      modifies m`mem, this`w
      ensures Valid() && random == p.random && w == PutTail(old(w), base, p)
    {
      WriteString(platform, PLATFORM);
      random := platform - 16;
      WriteWords(random, [RANDOM_LOW, RANDOM_HIGH]);
    }

    /** Strings, platform name and random bytes. */
    method BuildUpperPart(top: nat, argv: seq<Text>, envs: seq<Text>) returns (random: nat, args: seq<nat>, envPtrs: seq<nat>)
      requires Valid() && base <= UpperPlaces(top, argv, envs).random && top <= base + |w|
      modifies m`mem, this`w
      ensures Valid() && random == UpperPlaces(top, argv, envs).random
      ensures Upper(w, args, envPtrs) == BuildUpper(old(w), base, top, argv, envs)
    {
      ghost var p := UpperPlaces(top, argv, envs);
      var sp;
      sp, args, envPtrs := PushBoth(p, top - 16, argv, envs);
      var platform := Down8(Down8(sp) - (|PLATFORM| + 1));
      random := WriteTail(p, platform);
    }

    /** The two pointer arrays and argc, below address `end`. */
    method WriteArrays(ghost b: Bases, end: nat, args: seq<nat>, envPtrs: seq<nat>, argc: nat)
        returns (userSp: nat, argvBase: nat, envpBase: nat)
      requires Valid() && base <= b.argc && b.argc + 8 == b.argv && b.argv + 8 * |args| == b.envp
      requires b.envp + 8 * |envPtrs| == end <= base + |w| && end % 8 == 0
      modifies m`mem, this`w
      ensures Valid() && envpBase == b.envp && argvBase == b.argv && userSp == b.argc
      ensures w == PutArrays(old(w), base, b, args, envPtrs, argc)
    {
      Steps8(end, |envPtrs|);
      Steps8(end - 8 * |envPtrs|, |args|);
      Steps8(end - 8 * |envPtrs| - 8 * |args|, 1);
      envpBase := end - 8 * |envPtrs|;
      WriteWords(envpBase, envPtrs);
      argvBase := envpBase - 8 * |args|;
      WriteWords(argvBase, args);
      userSp := argvBase - 8;
      WriteWords(userSp, [argc]);
    }

    /** The auxiliary vector, the two pointer arrays and argc. */
    method WriteVectors(ghost b: Bases, auxBase: nat, all: seq<Aux>, args: seq<nat>, envPtrs: seq<nat>, argc: nat)
        returns (userSp: nat, argvBase: nat, envpBase: nat)
      requires Valid() && base <= b.argc && b.argc + 8 == b.argv && b.argv + 8 * |args| == b.envp
      requires b.envp + 8 * |envPtrs| == b.aux && b.aux + 16 * |all| <= base + |w| && auxBase == b.aux && auxBase % 8 == 0
      modifies m`mem, this`w
      ensures Valid() && Bases(auxBase, envpBase, argvBase, userSp) == b
      ensures w == BuildLower(old(w), base, b, Upper(old(w), args, envPtrs), argc, all)
    {
      WriteAux(auxBase, all);
      userSp, argvBase, envpBase := WriteArrays(b, auxBase, args, envPtrs, argc);
    }

    method BuildLowerPart(random: nat, all: seq<Aux>, args: seq<nat>, envPtrs: seq<nat>, argc: nat)
        returns (userSp: nat, argvBase: nat, envpBase: nat, auxBase: nat)
      requires Valid() && base <= LowerBases(random, |all|, |envPtrs|, |args|).argc && random <= base + |w|
      modifies m`mem, this`w
      ensures Valid() && Bases(auxBase, envpBase, argvBase, userSp) == LowerBases(random, |all|, |envPtrs|, |args|)
      ensures w == BuildLower(old(w), base, LowerBases(random, |all|, |envPtrs|, |args|), Upper(old(w), args, envPtrs), argc, all)
    {
      auxBase := Down16(random) - 16 * |all|;
      AuxAligned(random, |all|);
      userSp, argvBase, envpBase := WriteVectors(LowerBases(random, |all|, |envPtrs|, |args|), auxBase, all, args, envPtrs, argc);
    }

    /** `build_stack`. */
    method BuildStack(top: nat, argv: seq<Text>, envp: seq<Text>, aux: seq<Aux>)
        returns (userSp: nat, argc: nat, argvBase: nat, envpBase: nat, auxBase: nat)
      requires Valid() && Fits(w, base, top, argv, envp, aux)
      modifies m`mem, this`w
      ensures Valid() && Built(w, userSp, argc, argvBase, envpBase, auxBase) == UserStack.BuildStack(old(w), base, top, argv, envp, aux)
    {
      argc := |argv|;
      var random, args, envPtrs := BuildUpperPart(top, argv, envp + [PATH]);
      var all := aux + [Aux(AT_RANDOM, random), Aux(AT_EXECFN, args[0])] + [Aux(AT_NULL, 0)];
      userSp, argvBase, envpBase, auxBase := BuildLowerPart(random, all, args, envPtrs, argc);
    }

    // -------------------------------------------------------------------
    // Reading
    // -------------------------------------------------------------------

    /** `*translated_ref(token, va)` for n bytes within one page. */
    method Load(va: nat, n: nat) returns (data: seq<byte>)
      requires Valid() && n > 0 && Within(w, base, va, n) && va % PAGE_SIZE + n <= PAGE_SIZE
      ensures data == w[va - base..va - base + n]
    {
      var ppn, off := Locate(va);
      PageShows(m.mem, space.owned, base, w, va, n);
      data := m.mem[ppn][off..off + n];
    }

    method LoadWord(va: nat) returns (v: nat)
      requires Valid() && Within(w, base, va, 8) && va % 8 == 0
      ensures v == WordAt(w, base, va)
    {
      var data := Load(va, 8);
      v := Decode(data);
    }

    /** `translated_str`. */
    method TranslatedStr(ptr: nat) returns (str: string)
      requires Valid() && ReadStr(w, base, ptr).Some?
      ensures ReadStr(w, base, ptr) == Some(str)
    {
      str := "";
      var va := ptr;
      assert "" + ReadStr(w, base, ptr).value == ReadStr(w, base, ptr).value;
      while true
        invariant ReadStr(w, base, va).Some? && ReadStr(w, base, ptr) == Some(str + ReadStr(w, base, va).value)
        decreases base + |w| - va
      {
        ReadStrMore(w, base, ptr, va, str);
        var ch := Load(va, 1);
        if ch[0] == 0 {
          break;
        }
        str := str + [ch[0] as char];
        va := va + 1;
      }
    }

    /** The string the array's word at this address leads to, unless it is null. */
    method NextString(args: nat, at: nat, ghost strs: seq<string>) returns (str: Option<string>)
      requires Valid() && at % 8 == 0 && ReadSoFar(w, base, args, at, strs)
      ensures at + 8 <= base + |w|
      ensures if str.None? then ReadArray(w, base, args) == Some(strs) else ReadSoFar(w, base, args, at + 8, strs + [str.value])
    {
      ReadArrayMore(w, base, args, at, strs);
      var ptr := LoadWord(at);
      if ptr == 0 {
        return None;
      }
      var s := TranslatedStr(ptr);
      return Some(s);
    }

    /** The argument loop of `execve`. */
    method ReadPointers(args: nat) returns (strs: seq<string>)
      requires Valid() && args % 8 == 0 && (args != 0 ==> ReadArray(w, base, args).Some?)
      ensures if args == 0 then strs == [] else ReadArray(w, base, args) == Some(strs)
    {
      strs := [];
      if args == 0 {
        return;
      }
      var at := args;
      ReadNothing(w, base, args);
      while true
        invariant at % 8 == 0 && ReadSoFar(w, base, args, at, strs)
        decreases base + |w| - at
      {
        Steps8(at, 1);
        var str := NextString(args, at, strs);
        if str.None? {
          break;
        }
        strs := strs + [str.value];
        at := at + 8;
      }
    }
  }

  /** The end-to-end statement: a stack built through the page table and read back
      through it, at the addresses returned, gives the arguments and the
      environment with the appended entry. */
  method BuiltAndRead(s: Window, top: nat, argv: seq<Text>, envp: seq<Text>, aux: seq<Aux>)
      returns (args: seq<string>, envs: seq<string>)
    requires s.Valid() && Fits(s.w, s.base, top, argv, envp, aux)
    modifies s.m`mem, s`w
    ensures s.Valid() && args == argv && envs == envp + [PATH]
  {
    RoundTrip(s.w, s.base, top, argv, envp, aux);
    BasesAligned(BasesOf(top, argv, envp + [PATH], |aux|), |envp| + 2, |argv| + 1);
    var userSp, argc, argvBase, envpBase, auxBase := s.BuildStack(top, argv, envp, aux);
    args := s.ReadPointers(argvBase);
    envs := s.ReadPointers(envpBase);
  }

  lemma BasesAligned(b: Bases, nEnv: nat, nArg: nat)
    requires b.aux % 16 == 0 && b.envp + 8 * nEnv == b.aux && b.argv + 8 * nArg == b.envp
    ensures b.envp % 8 == 0 && b.argv % 8 == 0
  {
    var k := b.aux / 16;
    assert b.aux == 16 * k;
    Multiple8(2 * k - nEnv);
    Multiple8(2 * k - nEnv - nArg);
    assert b.envp == 8 * (2 * k - nEnv) && b.argv == 8 * (2 * k - nEnv - nArg);
  }

  lemma Multiple8(x: int)
    ensures 8 * x % 8 == 0
  {
  }

  /** Before `at` the array gave strs, and the rest of it can be read. */
  ghost predicate ReadSoFar(w: seq<byte>, base: nat, args: nat, at: nat, strs: seq<string>) {
    ReadArray(w, base, at).Some? && ReadArray(w, base, args) == Some(strs + ReadArray(w, base, at).value)
  }

  lemma ReadNothing(w: seq<byte>, base: nat, args: nat)
    requires ReadArray(w, base, args).Some?
    ensures ReadSoFar(w, base, args, args, [])
  {
    assert [] + ReadArray(w, base, args).value == ReadArray(w, base, args).value;
  }

  /** One more character read. */
  lemma ReadStrMore(w: seq<byte>, base: nat, ptr: nat, va: nat, str: string)
    requires ReadStr(w, base, va).Some? && ReadStr(w, base, ptr) == Some(str + ReadStr(w, base, va).value)
    ensures Within(w, base, va, 1)
    ensures if w[va - base] == 0 then ReadStr(w, base, ptr) == Some(str)
            else ReadStr(w, base, va + 1).Some?
                 && ReadStr(w, base, ptr) == Some(str + [w[va - base] as char] + ReadStr(w, base, va + 1).value)
  {
    if w[va - base] != 0 {
      var c, rest := [w[va - base] as char], ReadStr(w, base, va + 1).value;
      assert str + (c + rest) == (str + c) + rest;
    } else {
      assert str + "" == str;
    }
  }

  /** One more string read. */
  lemma ReadArrayMore(w: seq<byte>, base: nat, args: nat, at: nat, strs: seq<string>)
    requires ReadSoFar(w, base, args, at, strs)
    ensures Within(w, base, at, 8)
    ensures var ptr := WordAt(w, base, at);
      if ptr == 0 then ReadArray(w, base, args) == Some(strs)
      else ReadStr(w, base, ptr).Some? && ReadSoFar(w, base, args, at + 8, strs + [ReadStr(w, base, ptr).value])
  {
    var ptr := WordAt(w, base, at);
    if ptr != 0 {
      var s, rest := [ReadStr(w, base, ptr).value], ReadArray(w, base, at + 8).value;
      assert strs + (s + rest) == (strs + s) + rest;
    } else {
      assert strs + [] == strs;
    }
  }

  lemma LowAddress(va: nat)
    requires va / PAGE_SIZE < VPNS
    ensures VirtAddr(va) == va < VA_SPACE
  {
  }

  lemma PhysicalParts(ppn: nat, off: nat)
    requires off < PAGE_SIZE
    ensures (ppn * PAGE_SIZE + off) / PAGE_SIZE == ppn && (ppn * PAGE_SIZE + off) % PAGE_SIZE == off
  {
  }

  lemma Steps8(a: int, n: nat)
    requires a % 8 == 0
    ensures (a - 8 * n) % 8 == 0 && (a + 8 * n) % 8 == 0
  {
  }

  /** Bytes of one page, read from its frame. */
  lemma PageShows(mem: Mem, owned: map<nat, nat>, base: nat, w: seq<byte>, va: nat, n: nat)
    requires Shows(mem, owned, base, w) && n > 0 && Within(w, base, va, n) && va % PAGE_SIZE + n <= PAGE_SIZE
    ensures va / PAGE_SIZE in owned && HasFrame(mem, owned[va / PAGE_SIZE])
    ensures mem[owned[va / PAGE_SIZE]][va % PAGE_SIZE..va % PAGE_SIZE + n] == w[va - base..va - base + n]
  {
    assert ShowsAt(mem, owned, base, w, va);
    var frame, off := mem[owned[va / PAGE_SIZE]], va % PAGE_SIZE;
    forall j | off <= j < off + n
      ensures frame[j] == w[va - base + (j - off)]
    {
      assert ShowsAt(mem, owned, base, w, va + (j - off));
      SameFrame(va, j - off);
    }
  }

  lemma SameFrame(va: nat, i: nat)
    requires va % PAGE_SIZE + i < PAGE_SIZE
    ensures (va + i) / PAGE_SIZE == va / PAGE_SIZE && (va + i) % PAGE_SIZE == va % PAGE_SIZE + i
  {
  }

  /** Pushing the rest gives what pushing everything gives. */
  ghost predicate PushedSoFar(w0: seq<byte>, base: nat, sp0: int, w: seq<byte>, sp: int, parms: seq<Text>, index: nat, ptrs: seq<nat>)
    requires base <= sp0 - Size(parms) && sp0 <= base + |w0|
  {
    && index <= |parms| && |w| == |w0| && sp <= sp0 && base <= sp - Size(parms[index..])
    && var r := PushStrings(w, base, sp, parms[index..]);
       PushStrings(w0, base, sp0, parms) == Pushed(r.w, r.sp, ptrs + r.ptrs)
  }

  lemma PushedStep(w0: seq<byte>, base: nat, sp0: int, w: seq<byte>, sp: int, parms: seq<Text>, index: nat, ptrs: seq<nat>)
    requires base <= sp0 - Size(parms) && sp0 <= base + |w0| && index < |parms|
    requires PushedSoFar(w0, base, sp0, w, sp, parms, index, ptrs)
    ensures var at := sp - (|parms[index]| + 1);
      && base <= at && Within(w, base, at, |parms[index]| + 1)
      && PushedSoFar(w0, base, sp0, Put(w, base, at, Terminated(parms[index])), at, parms, index + 1, ptrs + [at])
  {
    assert parms[index..][0] == parms[index] && parms[index..][1..] == parms[index + 1..];
  }

  lemma PutNothing(w: seq<byte>, base: nat, at: int)
    requires Within(w, base, at, 0)
    ensures Put(w, base, at, []) == w
  {
  }

  /** Two adjacent stores are one. */
  lemma PutMore(w: seq<byte>, base: nat, at: int, a: seq<byte>, b: seq<byte>)
    requires Within(w, base, at, |a| + |b|)
    ensures Put(Put(w, base, at, a), base, at + |a|, b) == Put(w, base, at, a + b)
  {
  }

  lemma PutByte(w: seq<byte>, base: nat, at: int, bytes: seq<byte>, n: nat)
    requires n < |bytes| && Within(w, base, at, |bytes|)
    ensures Put(Put(w, base, at, bytes[..n]), base, at + n, [bytes[n]]) == Put(w, base, at, bytes[..n + 1])
  {
    PutMore(w, base, at, bytes[..n], [bytes[n]]);
    assert bytes[..n] + [bytes[n]] == bytes[..n + 1];
  }

  lemma {:induction false} WordsAppend(a: seq<nat>, b: seq<nat>)
    ensures WordBytes(a + b) == WordBytes(a) + WordBytes(b)
  {
    if a == [] {
      assert a + b == b;
    } else {
      WordsAppend(a[1..], b);
      assert (a + b)[1..] == a[1..] + b;
      Assoc(Encode(a[0], 8), WordBytes(a[1..]), WordBytes(b));
    }
  }

  lemma WordsSnoc(ws: seq<nat>, i: nat)
    requires i < |ws|
    ensures WordBytes(ws[..i + 1]) == WordBytes(ws[..i]) + Encode(ws[i], 8)
  {
    assert ws[..i + 1] == ws[..i] + [ws[i]];
    WordsAppend(ws[..i], [ws[i]]);
    assert WordBytes([ws[i]]) == Encode(ws[i], 8) + WordBytes([]);
  }

  lemma {:induction false} AuxAppend(a: seq<Aux>, b: seq<Aux>)
    ensures AuxWords(a + b) == AuxWords(a) + AuxWords(b)
  {
    if a == [] {
      assert a + b == b;
    } else {
      AuxAppend(a[1..], b);
      assert (a + b)[0] == a[0] && (a + b)[1..] == a[1..] + b;
      Assoc([a[0].key, a[0].value], AuxWords(a[1..]), AuxWords(b));
    }
  }

  lemma AuxSnoc(aux: seq<Aux>, i: nat)
    requires i < |aux|
    ensures WordBytes(AuxWords(aux[..i + 1])) == WordBytes(AuxWords(aux[..i])) + AuxBytes(aux[i])
  {
    var done, last := AuxWords(aux[..i]), [aux[i].key, aux[i].value];
    assert aux[..i + 1] == aux[..i] + [aux[i]];
    AuxAppend(aux[..i], [aux[i]]);
    assert [aux[i]][1..] == [] && AuxWords([aux[i]]) == last;
    WordsAppend(done, last);
    assert last[1..] == [aux[i].value];
    assert WordBytes([aux[i].value]) == Encode(aux[i].value, 8) + WordBytes([]);
    assert WordBytes(last) == AuxBytes(aux[i]);
  }
}
