/** From source text to a running program: compile, write the image, load it, run. */
module LccTheorem {
  import opened RawBytes
  import opened LccWords
  import opened LccSyntax
  import opened LccLex
  import opened LccGen
  import opened LccMachine
  import opened LccCode
  import opened LccSim
  import opened LccRun
  import opened LccCompiler
  import ElfImage
  import ElfWrite
  import ElfLoad
  import ElfExec
  import ElfFields
  import ElfSpace
  import VmmTables
  import VmmRam
  import VmmFree
  import VmmSpace
  import VmmNew

  /** Addresses of strings and locals once the code is complete. */
  function FinalLayout(code: nat, pool: nat): Layout {
    Placed(ElfImage.BASE + ElfImage.StrOff(code), ElfImage.BASE + ElfImage.LocOff(code, pool))
  }

  /** The code of a program with its addresses filled in. */
  function FinalCode(body: seq<Stmt>): seq<Byte> {
    Code(GenProgram(body), FinalLayout(|Code(GenProgram(body), Unplaced)|, |Pools(body, [])|))
  }

  /** The file a program compiles to. */
  function FileOf(body: seq<Stmt>): seq<Byte> {
    ElfImage.Image(FinalCode(body), Pools(body, []), |Scopes(body, [])|)
  }

  /** What lcc accepts: scoped, with at most 64 locals and short strings, and small
      enough for its tables. */
  predicate Accepted(body: seq<Stmt>) {
    BodyScoped(body, []) && |Scopes(body, [])| <= MAX_LOCALS && ShortTexts(body) && FitsTables(body)
  }

  /** As much of a source file as the buffer takes. */
  function SourceOf(file: seq<Byte>): Source {
    if |file| >= MAX_CODE then file[..MAX_CODE - 1] else file
  }

  /** Compile a source file to an executable file: exactly the sources that parse
      and fit the tables are accepted. */
  method Compile(file: seq<Byte>) returns (v: Verdict, image: seq<Byte>, ghost body: seq<Stmt>)
    ensures v == Good ==> && Program(Stream(SourceOf(file), 0)) == BodyGot(body, Scopes(body, []))
                          && Accepted(body) && image == FileOf(body)
    ensures v == Good <==> var p := Program(Stream(SourceOf(file), 0)); p.BodyGot? && FitsTables(p.body)
    ensures v == Syntax ==> Program(Stream(SourceOf(file), 0)) == BodyFail
  {
    image := [];
    var c := new Compiler(SourceOf(file));
    v, body := c.CompileProgram();
    if v != Good { return; }
    var lay := FinalLayout(|c.code|, |c.pool|);
    PatchPlaces(GenProgram(body), lay);
    c.ApplyFixups(lay);
    var out := ElfWrite.WriteImage(c.code, c.pool, |c.names|);
    image := out[..];
  }

  // ----- the loaded program -----------------------------------------------------------------------------

  /** The processor starts at `entry` with these pages mapped, and a stack of `room`
      words below rsp, above the program. */
  ghost predicate Launched(s: State, pages: ElfSpace.Pages, entry: nat, room: nat) {
    && s.st == Running && s.out == [] && s.rip == entry
    && (forall a: nat, x: Byte :: ElfLoad.At(pages, a, x) ==> a in s.mem && s.mem[a] == x)
    && 8 * room <= s.rsp && Mapped(s.mem, s.rsp - 8 * room, 8 * room)
  }

  /** The pieces of an image, where the loader puts them. */
  function PlacedWorld(code: seq<Byte>, pool: seq<Byte>, n: nat, top: nat, room: nat): World {
    World(ElfImage.BASE + ElfImage.CODE_OFF, code, ElfImage.BASE + ElfImage.StrOff(|code|), pool,
          ElfImage.BASE + ElfImage.LocOff(|code|, |pool|), n, top, room)
  }

  function WorldOf(body: seq<Stmt>, top: nat, room: nat): World {
    PlacedWorld(FinalCode(body), Pools(body, []), |Scopes(body, [])|, top, room)
  }

  /** The image is in memory, byte for byte. */
  ghost predicate ImageAt(m: Memory, image: seq<Byte>) { Holds(m, ElfImage.BASE, image) }

  lemma PieceHeld(m: Memory, image: seq<Byte>, at: nat, b: seq<Byte>)
    requires ImageAt(m, image) && ElfImage.Within(image, at, b)
    ensures Holds(m, ElfImage.BASE + at, b)
  {
    var x, z := image[..at], image[at + |b|..];
    assert image == x + (b + z);
    HoldsSplit(m, ElfImage.BASE, x, b + z);
    HoldsSplit(m, ElfImage.BASE + at, b, z);
  }

  /** Zero bytes are zero words. */
  lemma ZeroWords(m: Memory, a: nat, n: nat)
    requires Holds(m, a, Zeros(8 * n))
    ensures LocalsAt(m, a, ZeroVars(n))
  {
    forall i: nat | i < n ensures WordAt(m, a + 8 * i, ZeroVars(n)[i]) {
      ElfWrite.ZeroLE(8);
      assert forall k: nat :: a + 8 * i <= k < a + 8 * i + 8 ==> k in m && m[k] == Zeros(8 * n)[k - a];
    }
  }

  lemma {:induction false} CodeNotShorter(f: Item -> seq<Byte>, items: seq<Item>)
    requires forall i :: |f(i)| >= 1
    ensures |items| <= |FlatMap(f, items)|
    decreases |items|
  {
    if items != [] {
      CodeNotShorter(f, items[1..]);
    }
  }

  lemma EmitsSomething(lay: Layout)
    ensures forall i :: |Emitter(lay)(i)| >= 1
  {
    forall i ensures |Emit(i, lay)| >= 1 {
      var list := Lower(i, lay);
      assert list == [list[0]] + list[1..];
      AssembleHead(list[0], list[1..]);
    }
  }

  lemma ItemsFit(body: seq<Stmt>)
    requires Accepted(body)
    ensures |GenProgram(body)| <= MAX_CODE && |FinalCode(body)| <= MAX_CODE
  {
    EmitsSomething(Unplaced);
    CodeNotShorter(Emitter(Unplaced), GenProgram(body));
    SameLength(body);
  }

  lemma SameLength(body: seq<Stmt>)
    ensures |FinalCode(body)| == |Code(GenProgram(body), Unplaced)|
  {
    PatchPlaces(GenProgram(body), FinalLayout(|Code(GenProgram(body), Unplaced)|, |Pools(body, [])|));
  }

  /** Loading the file puts its bytes into memory. */
  lemma FileInMemory(body: seq<Stmt>, s: State, pages: ElfSpace.Pages, entry: nat, room: nat)
    requires Accepted(body) && Launched(s, pages, entry, room)
    requires var image := FileOf(body);
             |image| < W && forall i: nat :: i < |image| ==> ElfLoad.At(pages, ElfImage.BASE + i, image[i])
    ensures ImageAt(s.mem, FileOf(body))
  {
    var image := FileOf(body);
    forall k: nat | ElfImage.BASE <= k < ElfImage.BASE + |image|
      ensures k in s.mem && s.mem[k] == image[k - ElfImage.BASE] {
      assert ElfLoad.At(pages, ElfImage.BASE + (k - ElfImage.BASE), image[k - ElfImage.BASE]);
    }
  }

  lemma PiecesHeld(image: seq<Byte>, m: Memory, code: seq<Byte>, str: nat, pool: seq<Byte>, loc: nat, n: nat)
    requires ImageAt(m, image) && ElfImage.Within(image, ElfImage.CODE_OFF, code) && ElfImage.Within(image, str, pool)
    requires ElfImage.Within(image, loc, Zeros(8 * n))
    ensures Holds(m, ElfImage.BASE + ElfImage.CODE_OFF, code) && Holds(m, ElfImage.BASE + str, pool)
    ensures LocalsAt(m, ElfImage.BASE + loc, ZeroVars(n))
  {
    PieceHeld(m, image, ElfImage.CODE_OFF, code);
    PieceHeld(m, image, str, pool);
    PieceHeld(m, image, loc, Zeros(8 * n));
    ZeroWords(m, ElfImage.BASE + loc, n);
  }

  lemma EntersWorld(w: World, s: State, pages: ElfSpace.Pages)
    requires Sound(w) && Launched(s, pages, w.at, w.room) && s.rsp == w.top
    requires Holds(s.mem, w.at, w.code) && Holds(s.mem, w.str, w.pool) && LocalsAt(s.mem, w.loc, ZeroVars(w.n))
    ensures Entering(s, w)
  {
  }

  lemma PlacedSound(code: seq<Byte>, pool: seq<Byte>, n: nat, top: nat, room: nat)
    requires n <= MAX_LOCALS && ElfImage.BASE + ElfImage.Total(|code|, |pool|, n) + 8 * room <= top < W
    ensures Sound(PlacedWorld(code, pool, n, top, room))
  {
  }

  lemma PlacedEnters(image: seq<Byte>, code: seq<Byte>, pool: seq<Byte>, n: nat, s: State, pages: ElfSpace.Pages,
                     room: nat)
    requires ImageAt(s.mem, image) && ElfImage.HasPieces(image, code, pool, n)
             && Sound(PlacedWorld(code, pool, n, s.rsp, room))
    requires Launched(s, pages, ElfImage.BASE + ElfImage.CODE_OFF, room)
    ensures Entering(s, PlacedWorld(code, pool, n, s.rsp, room))
  {
    PiecesHeld(image, s.mem, code, ElfImage.StrOff(|code|), pool, ElfImage.LocOff(|code|, |pool|), n);
    EntersWorld(PlacedWorld(code, pool, n, s.rsp, room), s, pages);
  }

  lemma WorldCompiled(body: seq<Stmt>, top: nat, room: nat)
    requires Accepted(body) && MAX_CODE <= room
    ensures Compiled(WorldOf(body, top, room), body)
  {
    ItemsFit(body);
    SameLength(body);
  }

  /** The loaded program is about to run in a sound world. */
  lemma Enters(body: seq<Stmt>, s: State, pages: ElfSpace.Pages, room: nat)
    requires Accepted(body) && ImageAt(s.mem, FileOf(body))
    requires Launched(s, pages, ElfImage.BASE + ElfImage.CODE_OFF, room)
    requires ElfImage.BASE + |FileOf(body)| + 8 * room <= s.rsp
    ensures var w := WorldOf(body, s.rsp, room); Sound(w) && Entering(s, w)
  {
    PlacedSound(FinalCode(body), Pools(body, []), |Scopes(body, [])|, s.rsp, room);
    ElfImage.ImagePieces(FinalCode(body), Pools(body, []), |Scopes(body, [])|);
    PlacedEnters(FileOf(body), FinalCode(body), Pools(body, []), |Scopes(body, [])|, s, pages, room);
  }

  /** The whole way: a program lcc accepted, loaded by the kernel and run by the
      processor, comes to a stop, has written the bytes and has the exit value its
      source means, or stops at the division fault its source means. */
  lemma LoadedRuns(body: seq<Stmt>, s: State, pages: ElfSpace.Pages, room: nat) returns (n: nat)
    requires Accepted(body) && MAX_CODE <= room && ElfImage.BASE + |FileOf(body)| + 8 * room <= s.rsp
    requires Loaded(body, pages) && Launched(s, pages, ElfImage.BASE + ElfImage.CODE_OFF, room)
    ensures Steps(s, n).st != Running && Seen(Steps(s, n)) == Meaning(body)
  {
    FileInMemory(body, s, pages, ElfImage.BASE + ElfImage.CODE_OFF, room);
    Enters(body, s, pages, room);
    WorldCompiled(body, s.rsp, room);
    n := CompiledRuns(body, s, WorldOf(body, s.rsp, room));
  }

  /** The file is small enough to be an image. */
  lemma FileSize(body: seq<Stmt>)
    requires Accepted(body)
    ensures |FileOf(body)| <= ElfImage.CODE_OFF + MAX_CODE + MAX_STR + MAX_LOCALS * 8 + 16
  {
    ItemsFit(body);
  }

  /** Launched with half a mebibyte of stack or more, above the program's `size` bytes. */
  ghost predicate Roomy(s: State, pages: ElfSpace.Pages, entry: nat, room: nat, size: nat) {
    Launched(s, pages, entry, room) && MAX_CODE <= room && ElfImage.BASE + size + 8 * room <= s.rsp
  }

  ghost predicate StopsWith(s: State, o: Outcome) {
    exists n: nat :: Steps(s, n).st != Running && Seen(Steps(s, n)) == o
  }

  /** No file lcc writes has more pages than these. */
  const IMAGE_PAGES: nat := 19

  predicate ImagePage(p: nat) { 0x4_0000 <= p < 0x4_0000 + IMAGE_PAGES }

  /** The whole file is one segment, small enough for those pages. */
  ghost predicate OneSegment(f: seq<Byte>) {
    && |f| <= IMAGE_PAGES * ElfSpace.PAGE && ElfExec.Loadable(f) && ElfExec.Bias(f) == 0 && ElfExec.PhNum(f) == 1
    && ElfExec.PhType(f, 0) == ElfExec.PT_LOAD
    && ElfExec.PhSegment(f, 0, 0) == ElfLoad.Segment(ElfImage.BASE, 0, |f|, |f|)
  }

  lemma FileReady(body: seq<Stmt>)
    requires Accepted(body)
    ensures OneSegment(FileOf(body)) && ElfExec.Entry(FileOf(body)) == ElfImage.BASE + ElfImage.CODE_OFF
  {
    FileSize(body);
    ElfFields.ImageFields(FinalCode(body), Pools(body, []), |Scopes(body, [])|);
  }

  lemma SegmentPages(s: ElfLoad.Segment, n: nat)
    requires s == ElfLoad.Segment(ElfImage.BASE, 0, n, n) && n <= IMAGE_PAGES * ElfSpace.PAGE
    ensures ElfLoad.FirstPage(s) == 0x4_0000 && ElfLoad.EndPage(s) <= 0x4_0000 + IMAGE_PAGES
  {
  }

  lemma FilePages(f: seq<Byte>)
    requires OneSegment(f)
    ensures ElfExec.PageCount(f, 0, 1) <= IMAGE_PAGES
  {
    SegmentPages(ElfExec.PhSegment(f, 0, 0), |f|);
    assert ElfExec.PageCount(f, 0, 0) == 0;
  }

  lemma FileUser(space: ElfSpace.Space, f: seq<Byte>)
    requires OneSegment(f) && forall p: nat :: ImagePage(p) ==> space.User(p)
    ensures ElfExec.UserImage(space, f)
  {
    SegmentPages(ElfExec.PhSegment(f, 0, 0), |f|);
  }

  /** Compile and load: whatever state the processor is launched in, the program
      stops with the meaning of its source. */
  method CompileAndLoad(file: seq<Byte>, space: ElfSpace.Space)
    returns (v: Verdict, rc: int, entry: nat, ghost body: seq<Stmt>)
    requires space.Valid() && space.pages == map[] && forall p: nat :: ImagePage(p) ==> space.User(p)
    modifies space, space.ram
    ensures space.Valid()
    ensures v == Good ==> Program(Stream(SourceOf(file), 0)) == BodyGot(body, Scopes(body, [])) && Accepted(body)
    ensures v == Good <==> var p := Program(Stream(SourceOf(file), 0)); p.BodyGot? && FitsTables(p.body)
    ensures v == Good && rc == 0 ==>
              forall s: State, room: nat :: Roomy(s, space.pages, entry, room, |FileOf(body)|) ==>
                  StopsWith(s, Meaning(body))
    ensures v == Good && rc != 0 ==> old(space.ram.freeCount) < 4 * IMAGE_PAGES
  {
    rc, entry := -1, 0;
    var image;
    v, image, body := Compile(file);
    if v != Good { return; }
    rc, entry := LoadFile(space, image, body);
    if rc == 0 {
      forall s: State, room: nat | Roomy(s, space.pages, entry, room, |FileOf(body)|)
        ensures StopsWith(s, Meaning(body)) {
        var n := LoadedRuns(body, s, space.pages, room);
      }
    }
  }

  /** Load a file lcc wrote into a space without pages. */
  method LoadFile(space: ElfSpace.Space, image: seq<Byte>, ghost body: seq<Stmt>) returns (rc: int, entry: nat)
    requires Accepted(body) && image == FileOf(body)
    requires space.Valid() && space.pages == map[] && forall p: nat :: ImagePage(p) ==> space.User(p)
    modifies space, space.ram
    ensures space.Valid()
    ensures rc == 0 ==> Loaded(body, space.pages) && entry == ElfImage.BASE + ElfImage.CODE_OFF
    ensures rc != 0 ==> old(space.ram.freeCount) < 4 * IMAGE_PAGES
  {
    FileReady(body);
    FileUser(space, image);
    FilePages(image);
    rc, entry := ElfExec.LoadImage(space, image);
    if rc == 0 {
      AllLoaded(body, space.pages);
    }
  }

  /** Every byte of the file is in place. */
  ghost predicate Loaded(body: seq<Stmt>, pages: ElfSpace.Pages) {
    forall i: nat :: i < |FileOf(body)| ==> ElfLoad.At(pages, ElfImage.BASE + i, FileOf(body)[i])
  }

  /** The image's pages are under entry 1 of the table under entry 0 of the root. */
  lemma ImageIndices(p: nat)
    requires ImagePage(p)
    ensures p < VmmSpace.Span(3) && VmmSpace.Index(p, 3) == 0 && VmmSpace.Index(p, 2) == 1
  {
    assert p / 512 / 512 == 1 && p / 512 / 512 / 512 == 0;
    assert VmmSpace.Index(p, 2) == VmmSpace.Index(p / 512, 1) == VmmSpace.Index(p / 512 / 512, 0);
    assert VmmSpace.Index(p, 3) == VmmSpace.Index(p / 512, 2) == VmmSpace.Index(p / 512 / 512, 1)
        == VmmSpace.Index(p / 512 / 512 / 512, 0);
  }

  /** From a source file and physical memory to a program in page tables of its own: an accepted source is loaded if
      there are frames for it, and whatever state the processor is launched in with the pages those tables show, the
      program stops with the meaning of its source. */
  method CompileAndStart(file: seq<Byte>, ram: VmmRam.Ram, ents: seq<VmmTables.Pte>, low: seq<VmmTables.Pte>)
    returns (v: Verdict, rc: int, entry: nat, space: ElfSpace.Space?, ghost body: seq<Stmt>)
    requires ram.Valid() && |ents| == VmmTables.ENTRIES && |low| == VmmTables.ENTRIES
             && VmmFree.KernelStable(ram.frames, VmmTables.Entries(ents), ram.bits, 3)
    requires ents[0].flags.present ==>
               VmmTables.Below(ram.frames, VmmTables.Entries(ents), 0) == VmmTables.Entries(low)
               && !low[1].flags.present
    modifies ram
    ensures v == Good ==> Program(Stream(SourceOf(file), 0)) == BodyGot(body, Scopes(body, [])) && Accepted(body)
    ensures v == Good <==> var p := Program(Stream(SourceOf(file), 0)); p.BodyGot? && FitsTables(p.body)
    ensures v == Good && rc == 0 ==>
              && space != null && space.ram == ram && space.Valid()
              && forall s: State, room: nat :: Roomy(s, space.pages, entry, room, |FileOf(body)|) ==>
                   StopsWith(s, Meaning(body))
    ensures v == Good && rc != 0 ==> old(ram.freeCount) < 2 + 4 * IMAGE_PAGES
  {
    rc, entry, space := -1, 0, null;
    var image;
    v, image, body := Compile(file);
    if v != Good { return; }
    ghost var t;
    var phys;
    phys, t := VmmNew.NewSpace(ram, ents, low);
    if phys == 0 { return; }
    space := new ElfSpace.Space(ram, phys, VmmTables.Entries(ents), t);
    forall p: nat | ImagePage(p) ensures space.User(p) {
      ImageIndices(p);
      assert VmmNew.LeftFree(ents, low, p);
    }
    rc, entry := LoadFile(space, image, body);
    if rc == 0 {
      forall s: State, room: nat | Roomy(s, space.pages, entry, room, |FileOf(body)|)
        ensures StopsWith(s, Meaning(body)) {
        var n := LoadedRuns(body, s, space.pages, room);
      }
    }
  }

  lemma AllLoaded(body: seq<Stmt>, pages: ElfSpace.Pages)
    requires Accepted(body) && |FileOf(body)| < W && ElfExec.Loadable(FileOf(body))
    requires var f := FileOf(body); pages == ElfExec.PagesAfter(map[], f, ElfExec.Bias(f), ElfExec.PhNum(f))
    ensures Loaded(body, pages)
  {
    forall i: nat | i < |FileOf(body)| ensures ElfLoad.At(pages, ElfImage.BASE + i, FileOf(body)[i]) {
      ElfFields.ImageLoads(FinalCode(body), Pools(body, []), |Scopes(body, [])|, i);
    }
  }
}
