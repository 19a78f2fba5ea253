/** static/chapter_reader.js, the view: which decoded pages are held in memory while renders,
    scrolls, retries, chapter switches and late fetches interleave.

    An object URL is named by the load that created it: `URL.createObjectURL` always returns a
    fresh one and each load creates at most one. */
module ReaderCache {
  import opened Basics
  import opened ReaderGeometry

  datatype Status = Closed | Loading | Ready | Error

  /** A load between `loadPage` and the end of its `then` callback. */
  datatype Stage =
    | Fetching                      // waiting for the bytes
    | Minted                        // object URL created, `then` not run yet
    | Refused(unauthorized: bool)   // not ok, `then` not run yet
    | Finished
  datatype Load = Load(page: int, token: nat, stage: Stage)

  /** What a slot holds; an empty slot is absent from `slots`. */
  datatype Child = Image(load: nat) | RetryButton

  datatype Signature = Unsigned | Signed(token: nat, mode: ViewMode, pages: seq<int>)
  datatype Document = Document(listed: nat, claimed: int, images: bool)

  function Range(first: int, last: int): (pages: set<int>)
    ensures forall p :: p in pages <==> first <= p <= last
    ensures |pages| <= MaxInt(0, last - first + 1)
    decreases last - first
  {
    if first > last then {} else {first} + Range(first + 1, last)
  }

  datatype Cache = Cache(
    token: nat, status: Status, document: Document, mode: ViewMode, page: int,
    signature: Signature, slots: map<int, Child>, urls: map<int, nat>,
    live: set<nat>, loads: map<nat, Load>, next: nat)
  {
    // ---- what the page shows --------------------------------------------------------------

    function Pages(): seq<int> {
      if status != Ready || !document.images || document.claimed < 1 then []
      else Numbers(mode, document.listed, page)
    }

    /** `renderWindow` as a set: the same pages as `ReaderState.RenderWindow`. */
    function Window(): (window: set<int>)
      ensures forall p :: p in window <==>
                && document.claimed >= 1
                && (if mode == Single then p == page else 1 <= p <= document.claimed && page - 2 <= p <= page + 2)
    {
      if document.claimed < 1 then {}
      else if mode == Single then {page}
      else Range(MaxInt(1, page - RENDER_RADIUS), MinInt(document.claimed, page + RENDER_RADIUS))
    }

    predicate Connected(l: nat) {
      l in loads && loads[l].page in slots && slots[loads[l].page] == Image(l)
    }

    /** The object URL of load l is in `pageBlobUrls`. */
    predicate Cached(l: nat) {
      l in loads && loads[l].page in urls && urls[loads[l].page] == l
    }

    // ---- rendering --------------------------------------------------------------------------

    function DropAll(sign: Signature): Cache {
      this.(live := live - urls.Values, urls := map[], slots := map[], signature := sign)
    }

    function LoadPage(p: int): Cache {
      if p in slots then this
      else this.(slots := slots[p := Image(next)], loads := loads[next := Load(p, token, Fetching)], next := next + 1)
    }

    function EmptySlot(p: int): Cache {
      this.(slots := slots - {p}, urls := urls - {p}, live := if p in urls then live - {urls[p]} else live)
    }

    function Visit(p: int, wanted: set<int>): Cache {
      if p in wanted then LoadPage(p) else if p in slots then EmptySlot(p) else this
    }

    function Sweep(pages: seq<int>, wanted: set<int>): Cache
      decreases |pages|
    {
      if pages == [] then this else Visit(pages[0], wanted).Sweep(pages[1..], wanted)
    }

    /** The slots are built anew when what they stand for changed. */
    function Staged(): (staged: Cache)
      ensures staged.Window() == Window() && staged.Pages() == Pages()
    {
      var sign := Signed(token, mode, Pages());
      if signature == sign then this else DropAll(sign)
    }

    function Render(): Cache { Staged().Sweep(Pages(), Window()) }

    // ---- reader operations, each followed by the render its caller performs --------------------

    function Open(): Cache {
      this.(token := token + 1, status := Loading, document := Document(0, 0, document.images), page := 1)
        .DropAll(Unsigned).Render()
    }

    function Accept(stamp: nat, doc: Document): Cache {
      if stamp != token then this
      else this.(status := Ready, document := doc, page := if doc.claimed > 0 then 1 else 0).Render()
    }

    function Fail(stamp: nat): Cache {
      (if stamp != token then this else this.(status := Error)).Render()
    }

    function Close(): Cache {
      this.(token := token + 1, status := Closed, document := Document(0, 0, document.images), page := 1)
        .DropAll(Unsigned).Render()
    }

    function Turn(p: int): Cache { this.(page := p).Render() }

    function SetMode(m: ViewMode): Cache { this.(mode := m).Render() }

    function Retry(p: int): Cache {
      if p in slots && slots[p] == RetryButton then this.(slots := slots - {p}).LoadPage(p) else this
    }

    // ---- a load's two asynchronous steps -------------------------------------------------------

    function At(l: nat, stage: Stage): Cache
      requires l in loads
    {
      this.(loads := loads[l := loads[l].(stage := stage)])
    }

    /** The bytes (or the refusal) arrive: `loadInto` after its awaits. */
    function Arrive(l: nat, answer: Answer): Cache {
      if l !in loads || loads[l].stage != Fetching then this
      else if answer.NotOk? then At(l, Refused(answer.unauthorized))
      else if loads[l].token != token then At(l, Finished)
      else At(l, Minted).(live := live + {l})
    }

    /** The `then` callback of `loadPage`. */
    function Settle(l: nat): Cache {
      if l !in loads then this
      else match loads[l].stage
        case Minted =>
          if Connected(l) then At(l, Finished).(urls := urls[loads[l].page := l])
          else At(l, Finished).(live := live - {l})
        case Refused(unauthorized) =>
          var done := At(l, Finished);
          if !Connected(l) then done
          else if unauthorized then done.(slots := slots - {loads[l].page}).Fail(token)
          else done.(slots := slots[loads[l].page := RetryButton])
        case _ => this
    }

    // ---- the invariant --------------------------------------------------------------------------

    /** Nothing leaks and nothing is shown for another chapter. */
    ghost predicate Sound() {
      // the live object URLs are the cached ones and those whose `then` is still to run
      && (forall l :: l in live <==> Cached(l) || (l in loads && loads[l].stage == Minted))
      // a cached URL belongs to a slot that holds its image
      && (forall p :: p in urls ==> p in slots && slots[p] == Image(urls[p]))
      // an image in a slot is a load of that page for the current chapter, unfinished or cached
      && (forall p :: p in slots && slots[p].Image? ==> Held(p, slots[p].load))
      && (forall l :: l in loads ==> l < next)
    }

    ghost predicate Held(p: int, l: nat) {
      && l in loads && loads[l].page == p && loads[l].token == token
      && (loads[l].stage == Finished <==> p in urls)
      && (p in urls ==> urls[p] == l)
    }

    /** The slots that hold anything were wanted by the last render. */
    ghost predicate Bounded(wanted: set<int>) {
      slots.Keys <= wanted && |wanted| <= 2 * RENDER_RADIUS + 1
    }

    /** Sound, and only pages of the signature have slots. */
    ghost predicate Tidy() {
      && Sound()
      && (signature.Unsigned? ==> slots == map[])
      && (signature.Signed? ==> forall p :: p in slots ==> p in signature.pages)
    }

    ghost predicate Inv() { Tidy() && exists wanted :: Bounded(wanted) }
  }

  datatype Answer = Ok | NotOk(unauthorized: bool)

  const START := Cache(0, Closed, Document(0, 0, true), Continuous, 1, Unsigned, map[], map[], {}, map[], 0)

  // ---- every interleaving ------------------------------------------------------------------------

  datatype Event =
    | OpenChapter
    | AcceptDocument(stamp: nat, doc: Document)
    | FailChapter(stamp: nat)
    | CloseReader
    | TurnPage(page: int)
    | SwitchMode(mode: ViewMode)
    | Rerender
    | RetryPage(page: int)
    | BytesArrive(load: nat, answer: Answer)
    | RunThen(load: nat)

  function Step(c: Cache, e: Event): Cache {
    match e
    case OpenChapter => c.Open()
    case AcceptDocument(stamp, doc) => c.Accept(stamp, doc)
    case FailChapter(stamp) => c.Fail(stamp)
    case CloseReader => c.Close()
    case TurnPage(p) => c.Turn(p)
    case SwitchMode(m) => c.SetMode(m)
    case Rerender => c.Render()
    case RetryPage(p) => c.Retry(p)
    case BytesArrive(l, answer) => c.Arrive(l, answer)
    case RunThen(l) => c.Settle(l)
  }

  function Run(c: Cache, events: seq<Event>): Cache
    decreases |events|
  {
    if events == [] then c else Run(Step(c, events[0]), events[1..])
  }

  /** One more event is one more step. */
  lemma {:induction false} RunOneMore(c: Cache, events: seq<Event>, e: Event)
    ensures Run(c, []) == c && Run(c, events + [e]) == Step(Run(c, events), e)
    decreases |events|
  {
    if events == [] {
      assert ([] + [e])[1..] == [];
    } else {
      assert (events + [e])[1..] == events[1..] + [e];
      RunOneMore(Step(c, events[0]), events[1..], e);
    }
  }

  lemma WindowIsSmall(c: Cache)
    ensures |c.Window()| <= 2 * RENDER_RADIUS + 1
  {
    var p := c.page;
    SubsetSize(c.Window(), Range(p - RENDER_RADIUS, p + RENDER_RADIUS));
  }

  lemma ValuesAreCached(c: Cache)
    requires c.Sound()
    ensures forall l :: l in c.urls.Values <==> c.Cached(l)
    ensures c.urls.Keys <= c.slots.Keys
  {
    forall p | p in c.urls ensures c.Cached(c.urls[p]) && p in c.slots { assert c.Held(p, c.urls[p]); }
  }

  lemma DropAllSound(c: Cache, sign: Signature)
    requires c.Sound()
    ensures c.DropAll(sign).Sound()
  {
    ValuesAreCached(c);
  }

  lemma LoadPageSound(c: Cache, p: int)
    requires c.Sound()
    ensures c.LoadPage(p).Sound()
  {}

  lemma EmptySlotSound(c: Cache, p: int)
    requires c.Sound() && p in c.slots
    ensures c.EmptySlot(p).Sound()
  {
    if p in c.urls { assert c.Held(p, c.urls[p]); }
  }

  /** A sweep keeps soundness, empties every unwanted slot it visits and fills every wanted one. */
  lemma {:induction false} SweepSound(c: Cache, pages: seq<int>, wanted: set<int>)
    requires c.Sound()
    ensures var d := c.Sweep(pages, wanted);
            && d.Sound()
            && d.signature == c.signature && d.token == c.token
            && (forall p :: p in d.slots ==> p in c.slots || p in pages)
            && (forall p :: p in d.slots && p in pages ==> p in wanted)
            && (forall p :: p in pages && p in wanted ==> p in d.slots)
            && (forall p :: p in wanted && p in c.slots ==> p in d.slots)
            && (forall p :: p in d.slots && p !in wanted ==> p in c.slots)
    decreases |pages|
  {
    if pages != [] {
      var p := pages[0];
      LoadPageSound(c, p);
      if p in c.slots { EmptySlotSound(c, p); }
      SweepSound(c.Visit(p, wanted), pages[1..], wanted);
    }
  }

  /** After a render: still sound, the filled slots are exactly the listed pages of the window,
      so at most five pages hold bytes, whatever the chapter length. */
  lemma RenderKeepsInv(c: Cache)
    requires c.Tidy()
    ensures var d := c.Render();
            && d.Inv()
            && d.slots.Keys == (set p | p in c.Pages() && p in c.Window())
            && |d.urls| <= |d.slots| <= 5
  {
    var sign := Signed(c.token, c.mode, c.Pages());
    DropAllSound(c, sign);
    SweepSound(if c.signature == sign then c else c.DropAll(sign), c.Pages(), c.Window());
    var d := c.Render();
    WindowIsSmall(c);
    assert d.Bounded(c.Window());
    SubsetSize(d.slots.Keys, c.Window());
    ValuesAreCached(d);
    SubsetSize(d.urls.Keys, d.slots.Keys);
  }

  lemma StepKeepsInv(c: Cache, e: Event)
    requires c.Inv()
    ensures Step(c, e).Inv()
  {
    match e
    case OpenChapter => LeaveKeepsInv(c, Loading);
    case CloseReader => LeaveKeepsInv(c, Closed);
    case AcceptDocument(stamp, doc) =>
      if stamp == c.token {
        RenderKeepsInv(c.(status := Ready, document := doc, page := if doc.claimed > 0 then 1 else 0));
      }
    case FailChapter(stamp) => RenderKeepsInv(if stamp != c.token then c else c.(status := Error));
    case TurnPage(p) => RenderKeepsInv(c.(page := p));
    case SwitchMode(m) => RenderKeepsInv(c.(mode := m));
    case Rerender => RenderKeepsInv(c);
    case RetryPage(p) => RetryKeepsInv(c, p);
    case BytesArrive(l, answer) => ArriveKeepsInv(c, l, answer);
    case RunThen(l) => SettleKeepsInv(c, l);
  }

  /** Opening another chapter and closing the reader both start by releasing everything. */
  function Leave(c: Cache, status: Status): Cache {
    c.(token := c.token + 1, status := status, document := Document(0, 0, c.document.images), page := 1)
    .DropAll(Unsigned)
  }

  lemma LeaveKeepsInv(c: Cache, status: Status)
    requires c.Inv()
    ensures Leave(c, status).Render().Inv()
  {
    ValuesAreCached(c);
    var d := Leave(c, status);
    assert d.Sound();
    RenderKeepsInv(d);
  }

  lemma RetryKeepsInv(c: Cache, p: int)
    requires c.Inv()
    ensures c.Retry(p).Inv()
  {
    var wanted :| c.Bounded(wanted);
    if p in c.slots && c.slots[p] == RetryButton {
      LoadPageSound(c.(slots := c.slots - {p}), p);
      assert c.Retry(p).Bounded(wanted);
    }
  }

  lemma ArriveKeepsInv(c: Cache, l: nat, answer: Answer)
    requires c.Inv()
    ensures c.Arrive(l, answer).Inv()
  {
    var wanted :| c.Bounded(wanted);
    assert c.Arrive(l, answer).Bounded(wanted);
    if l in c.loads && c.loads[l].stage == Fetching {
      assert c.Connected(l) ==> c.Held(c.loads[l].page, l);
      if c.loads[l].token != c.token { FinishSound(c, l); }
    }
  }

  /** A load whose image is no longer in the document can end without touching anything. */
  lemma FinishSound(c: Cache, l: nat)
    requires c.Sound() && l in c.loads && !c.Connected(l) && c.loads[l].stage != Minted
    ensures c.At(l, Finished).Sound()
  {}

  /** A refused load still shown has cached nothing, so its slot can be emptied or offer a retry. */
  lemma RefusedSound(c: Cache, l: nat)
    requires c.Sound() && l in c.loads && c.Connected(l) && c.loads[l].stage.Refused?
    ensures var done, p := c.At(l, Finished), c.loads[l].page;
            done.(slots := c.slots - {p}).Sound() && done.(slots := c.slots[p := RetryButton]).Sound()
  {
    assert c.Held(c.loads[l].page, l);
  }

  lemma SettleKeepsInv(c: Cache, l: nat)
    requires c.Inv()
    ensures c.Settle(l).Inv()
  {
    var wanted :| c.Bounded(wanted);
    if l in c.loads && c.loads[l].stage == Minted {
      MintedSettles(c, l);
      assert c.Settle(l).Bounded(wanted);
    } else if l in c.loads && c.loads[l].stage.Refused? {
      if !c.Connected(l) {
        FinishSound(c, l);
        assert c.At(l, Finished).Bounded(wanted);
      } else {
        RefusedSound(c, l);
        if c.loads[l].stage.unauthorized {
          RenderKeepsInv(c.At(l, Finished).(slots := c.slots - {c.loads[l].page}, status := Error));
        } else {
          assert c.Settle(l).Bounded(wanted);
        }
      }
    }
  }

  lemma MintedSettles(c: Cache, l: nat)
    requires c.Sound() && l in c.loads && c.loads[l].stage == Minted
    ensures c.Settle(l).Sound()
  {
    if c.Connected(l) { assert c.Held(c.loads[l].page, l); }
  }

  lemma {:induction false} RunKeepsInv(c: Cache, events: seq<Event>)
    requires c.Inv()
    ensures Run(c, events).Inv()
    decreases |events|
  {
    if events != [] {
      StepKeepsInv(c, events[0]);
      RunKeepsInv(Step(c, events[0]), events[1..]);
    }
  }

  // ---- what a reader can rely on, in every reachable state ------------------------------------------

  /** In every interleaving, at every moment: at most five pages are cached; a live object URL is
      cached or is waiting for its own `then`; a cached URL is the image its slot shows, loaded
      for the current chapter; and a slot showing an image without bytes is still being loaded. */
  lemma NothingLeaks(events: seq<Event>)
    ensures var c := Run(START, events);
            && |c.urls| <= 5
            && (forall l :: l in c.live <==> c.Cached(l) || (l in c.loads && c.loads[l].stage == Minted))
            && (forall p :: p in c.urls ==>
                  c.Connected(c.urls[p]) && c.loads[c.urls[p]].page == p && c.loads[c.urls[p]].token == c.token)
            && (forall p :: p in c.slots && c.slots[p].Image? && p !in c.urls ==>
                  c.Connected(c.slots[p].load) && !c.loads[c.slots[p].load].stage.Finished?)
  {
    assert START.Bounded({});
    RunKeepsInv(START, events);
    var c := Run(START, events);
    var wanted :| c.Bounded(wanted);
    ValuesAreCached(c);
    SubsetSize(c.urls.Keys, c.slots.Keys);
    SubsetSize(c.slots.Keys, wanted);
  }

  /** Once no load is between its bytes and its `then`, the live object URLs are exactly the
      cached ones; after leaving the chapter there are none. */
  lemma QuietMeansOnlyCached(events: seq<Event>)
    requires forall l :: l in Run(START, events).loads ==> Run(START, events).loads[l].stage != Minted
    ensures Run(START, events).live == Run(START, events).urls.Values
    ensures Run(START, events).Close().live == {}
  {
    assert START.Bounded({});
    RunKeepsInv(START, events);
    var c := Run(START, events);
    ValuesAreCached(c);
    var left := Leave(c, Closed);
    assert left.live == {};
    assert left.Render() == left.DropAll(Signed(left.token, left.mode, []));
  }

  // ---- what happens to a page ---------------------------------------------------------------------

  /** A slot of one state and of a later one: the same child, with the same cached URL if any. */
  ghost predicate SameSlot(c: Cache, d: Cache, p: int) {
    && (p in c.slots <==> p in d.slots) && (p in c.slots ==> d.slots[p] == c.slots[p])
    && (p in c.urls <==> p in d.urls) && (p in c.urls ==> d.urls[p] == c.urls[p])
  }

  /** A slot with an image just put there, whose load for the current chapter has just begun. */
  ghost predicate StartsLoading(c: Cache, d: Cache, p: int) {
    && p in d.slots && d.slots[p].Image? && p !in d.urls && d.slots[p].load !in c.loads
    && d.slots[p].load in d.loads && d.loads[d.slots[p].load] == Load(p, c.token, Fetching)
  }

  ghost predicate Emptied(d: Cache, p: int) { p !in d.slots && p !in d.urls }

  /** Everything but slots, URLs and loads stays, and loads are only added. */
  ghost predicate OnlySlots(c: Cache, d: Cache) {
    && (d.token, d.status, d.document, d.mode, d.page) == (c.token, c.status, c.document, c.mode, c.page)
    && forall l :: l in c.loads ==> l in d.loads && d.loads[l] == c.loads[l]
  }

  lemma VisitExactly(c: Cache, p: int, wanted: set<int>)
    requires c.Sound()
    ensures var d := c.Visit(p, wanted);
            && d.Sound() && OnlySlots(c, d) && d.signature == c.signature
            && (forall q :: q != p ==> SameSlot(c, d, q))
            && (if p !in wanted then Emptied(d, p)
                else if p in c.slots then SameSlot(c, d, p) else StartsLoading(c, d, p))
  {
    LoadPageSound(c, p);
    if p in c.slots { EmptySlotSound(c, p); }
    ValuesAreCached(c);
  }

  /** What a sweep leaves in the slot of a page. */
  ghost predicate Swept(c: Cache, d: Cache, pages: seq<int>, wanted: set<int>, p: int) {
    if p !in pages then SameSlot(c, d, p)
    else if p !in wanted then Emptied(d, p)
    else if p in c.slots then SameSlot(c, d, p) else StartsLoading(c, d, p)
  }

  lemma SweptStep(c: Cache, m: Cache, d: Cache, pages: seq<int>, wanted: set<int>, p: int)
    requires pages != [] && OnlySlots(c, m) && OnlySlots(m, d)
    requires if p != pages[0] then SameSlot(c, m, p)
             else if p !in wanted then Emptied(m, p)
             else if p in c.slots then SameSlot(c, m, p) else StartsLoading(c, m, p)
    requires Swept(m, d, pages[1..], wanted, p)
    ensures Swept(c, d, pages, wanted, p)
  {
    assert p in pages <==> p == pages[0] || p in pages[1..];
  }

  lemma {:induction false} SweepExactly(c: Cache, pages: seq<int>, wanted: set<int>)
    requires c.Sound()
    ensures var d := c.Sweep(pages, wanted);
            d.Sound() && OnlySlots(c, d) && d.signature == c.signature && forall p :: Swept(c, d, pages, wanted, p)
    decreases |pages|
  {
    if pages != [] {
      var m := c.Visit(pages[0], wanted);
      VisitExactly(c, pages[0], wanted);
      SweepExactly(m, pages[1..], wanted);
      var d := c.Sweep(pages, wanted);
      assert d == m.Sweep(pages[1..], wanted);
      forall p ensures Swept(c, d, pages, wanted, p) { SweptStep(c, m, d, pages, wanted, p); }
    }
  }

  /** A render, page by page: a listed page of the window keeps its slot and cached URL while the pages shown
      stay the same, and starts loading otherwise; every other page has no slot and no URL. */
  lemma RenderExactly(c: Cache, p: int)
    requires c.Tidy()
    ensures var d := c.Render();
            && OnlySlots(c, d) && d.signature == Signed(c.token, c.mode, c.Pages())
            && (if p !in c.Pages() || p !in c.Window() then Emptied(d, p)
                else if c.signature == d.signature && p in c.slots then SameSlot(c, d, p)
                else StartsLoading(c, d, p))
  {
    var m := c.Staged();
    DropAllSound(c, Signed(c.token, c.mode, c.Pages()));
    SweepExactly(m, c.Pages(), c.Window());
    assert Swept(m, c.Render(), c.Pages(), c.Window(), p);
    ValuesAreCached(c);
  }

  /** The bytes of a page arrive for the current chapter and its slot still shows it when its `then` runs:
      the page stays, with its URL cached and live, and nothing else changes. When its slot is gone, its
      URL is revoked. */
  lemma LoadedPageIsKept(c: Cache, l: nat)
    requires c.Inv() && l in c.loads && c.loads[l].stage == Fetching && c.loads[l].token == c.token
    ensures var d, p := c.Arrive(l, Ok).Settle(l), c.loads[l].page;
            && d.slots == c.slots && d.status == c.status && d.loads == c.loads[l := c.loads[l].(stage := Finished)]
            && (if c.Connected(l) then d.urls == c.urls[p := l] && d.live == c.live + {l} && d.slots[p] == Image(l)
                else d.urls == c.urls && d.live == c.live && l !in d.live)
  {
    var m := c.Arrive(l, Ok);
    assert m.Connected(l) <==> c.Connected(l);
    if !c.Connected(l) { assert l !in c.live; }
  }

  /** Bytes for a chapter already left create no URL and change nothing that is shown. */
  lemma StaleBytesDropped(c: Cache, l: nat)
    requires c.Inv() && l in c.loads && c.loads[l].stage == Fetching && c.loads[l].token != c.token
    ensures c.Arrive(l, Ok).live == c.live
    ensures var d := c.Arrive(l, Ok).Settle(l);
            d.slots == c.slots && d.urls == c.urls && d.live == c.live && d.status == c.status
  {}

  /** A refused page whose slot still shows it gets a retry button; a refused session fails the reader, which
      then shows no page. A refusal for a slot already gone changes nothing that is shown. */
  lemma RefusedPage(c: Cache, l: nat, unauthorized: bool)
    requires c.Inv() && l in c.loads && c.loads[l].stage == Fetching
    ensures var d, p := c.Arrive(l, NotOk(unauthorized)).Settle(l), c.loads[l].page;
            && (!c.Connected(l) ==> d.slots == c.slots && d.urls == c.urls && d.live == c.live && d.status == c.status)
            && (c.Connected(l) && !unauthorized ==>
                  d.slots == c.slots[p := RetryButton] && d.urls == c.urls && d.live == c.live && d.status == c.status)
            && (c.Connected(l) && unauthorized ==> d.status == Error && d.slots == map[] && d.urls == map[])
  {
    var m := c.Arrive(l, NotOk(unauthorized));
    ArriveKeepsInv(c, l, NotOk(unauthorized));
    assert m.Connected(l) <==> c.Connected(l);
    if c.Connected(l) && unauthorized {
      var f := m.At(l, Finished).(slots := m.slots - {c.loads[l].page}, status := Error);
      RefusedSound(m, l);
      forall p ensures p !in f.Render().slots && p !in f.Render().urls { RenderExactly(f, p); }
      assert m.Settle(l) == f.Render();
    }
  }

  /** Page p gets a retry button between two states. */
  ghost predicate GetsButton(c: Cache, d: Cache, p: int) {
    p in d.slots && d.slots[p] == RetryButton && !(p in c.slots && c.slots[p] == RetryButton)
  }

  /** A retry button appears in one way only: the `then` of a page refused, but not for its session, whose
      slot still shows it. */
  lemma RetryButtonExactly(c: Cache, e: Event, p: int)
    requires c.Inv()
    ensures GetsButton(c, Step(c, e), p)
       <==> && e.RunThen? && e.load in c.loads && c.loads[e.load].stage == Refused(false)
            && c.Connected(e.load) && c.loads[e.load].page == p
  {
    if e.RunThen? { ThenButton(c, e.load, p); } else { NoOtherButton(c, e, p); }
  }

  lemma ThenButton(c: Cache, l: nat, p: int)
    requires c.Inv()
    ensures GetsButton(c, c.Settle(l), p)
       <==> l in c.loads && c.loads[l].stage == Refused(false) && c.Connected(l) && c.loads[l].page == p
  {
    if l in c.loads && c.loads[l].stage == Refused(true) && c.Connected(l) {
      var f := c.At(l, Finished).(slots := c.slots - {c.loads[l].page}, status := Error);
      RefusedSound(c, l);
      NoNewButton(f, p);
    }
  }

  lemma NoOtherButton(c: Cache, e: Event, p: int)
    requires c.Inv() && !e.RunThen?
    ensures !GetsButton(c, Step(c, e), p)
  {
    match e
    case OpenChapter => LeaveShowsNothing(c, Loading, p);
    case CloseReader => LeaveShowsNothing(c, Closed, p);
    case AcceptDocument(stamp, doc) =>
      if stamp == c.token {
        NoNewButton(c.(status := Ready, document := doc, page := if doc.claimed > 0 then 1 else 0), p);
      }
    case FailChapter(stamp) => NoNewButton(if stamp != c.token then c else c.(status := Error), p);
    case TurnPage(q) => NoNewButton(c.(page := q), p);
    case SwitchMode(m) => NoNewButton(c.(mode := m), p);
    case Rerender => NoNewButton(c, p);
    case RetryPage(q) =>
    case BytesArrive(l, answer) =>
  }

  lemma NoNewButton(c: Cache, p: int)
    requires c.Tidy()
    ensures p in c.Render().slots && c.Render().slots[p] == RetryButton ==> p in c.slots && c.slots[p] == RetryButton
  {
    RenderExactly(c, p);
  }

  /** Leaving a chapter shows no page at all. */
  lemma LeaveShowsNothing(c: Cache, status: Status, p: int)
    requires c.Inv() && status in {Loading, Closed}
    ensures p !in Leave(c, status).Render().slots
  {
    var d := Leave(c, status);
    ValuesAreCached(c);
    assert d.Tidy();
    RenderExactly(d, p);
  }

  ghost predicate Fields(c: Cache, token: nat, status: Status, document: Document, mode: ViewMode, page: int) {
    c.token == token && c.status == status && c.document == document && c.mode == mode && c.page == page
  }

  lemma RenderFields(c: Cache)
    requires c.Tidy()
    ensures Fields(c.Render(), c.token, c.status, c.document, c.mode, c.page)
  {
    RenderExactly(c, 0);
  }

  /** Opening a chapter and closing the reader start a new token, with an empty document. */
  lemma LeavingExactly(c: Cache)
    requires c.Inv()
    ensures Fields(c.Open(), c.token + 1, Loading, Document(0, 0, c.document.images), c.mode, 1)
    ensures Fields(c.Close(), c.token + 1, Closed, Document(0, 0, c.document.images), c.mode, 1)
  {
    LeaveTidy(c, Loading);
    LeaveTidy(c, Closed);
    RenderFields(Leave(c, Loading));
    RenderFields(Leave(c, Closed));
  }

  lemma LeaveTidy(c: Cache, status: Status)
    requires c.Inv()
    ensures Leave(c, status).Tidy()
  {
    ValuesAreCached(c);
  }

  /** A document counts with the current token only, and makes the chapter ready on its first page. */
  lemma AcceptExactly(c: Cache, stamp: nat, doc: Document)
    requires c.Inv()
    ensures stamp == c.token ==>
              Fields(c.Accept(stamp, doc), stamp, Ready, doc, c.mode, if doc.claimed > 0 then 1 else 0)
    ensures stamp != c.token ==> c.Accept(stamp, doc) == c
  {
    RenderFields(c.(status := Ready, document := doc, page := if doc.claimed > 0 then 1 else 0));
  }

  /** A failure counts with the current token only. */
  lemma FailExactly(c: Cache, stamp: nat)
    requires c.Inv()
    ensures Fields(c.Fail(stamp), c.token, if stamp == c.token then Error else c.status, c.document, c.mode, c.page)
  {
    RenderFields(c.(status := Error));
    RenderFields(c);
  }

  /** Turning a page keeps all else, ... */
  lemma TurnExactly(c: Cache, page: int)
    requires c.Inv()
    ensures Fields(c.Turn(page), c.token, c.status, c.document, c.mode, page)
  {
    RenderFields(c.(page := page));
  }

  /** ... and so does switching the mode. */
  lemma ModeExactly(c: Cache, mode: ViewMode)
    requires c.Inv()
    ensures Fields(c.SetMode(mode), c.token, c.status, c.document, mode, c.page)
  {
    RenderFields(c.(mode := mode));
  }

  /** The pages of a chapter that is ready are all of them, or the current one; of any other there are none. */
  lemma PagesExactly(c: Cache, p: int)
    ensures p in c.Pages() <==>
              && c.status == Ready && c.document.images && c.document.claimed >= 1
              && (if c.mode == Single then p == c.page else 1 <= p <= c.document.listed)
  {
    if c.status == Ready && c.document.images && c.document.claimed >= 1 && c.mode == Continuous
       && 1 <= p <= c.document.listed {
      assert c.Pages()[p - 1] == p;
    }
  }

  /** A retry button starts the load of its page anew. */
  lemma RetryStartsLoading(c: Cache, p: int)
    requires c.Inv()
    ensures if p in c.slots && c.slots[p] == RetryButton then StartsLoading(c, c.Retry(p), p) else c.Retry(p) == c
    ensures forall q :: q != p ==> SameSlot(c, c.Retry(p), q)
  {
    if p in c.slots && c.slots[p] == RetryButton { ValuesAreCached(c); }
  }

  // ---- the view's own state, updated in place ------------------------------------------------------

  class PageView {
    var token: nat
    var status: Status
    var document: Document
    var mode: ViewMode
    var page: int
    var signature: Signature
    var slots: map<int, Child>
    var pageBlobUrls: map<int, nat>
    var live: set<nat>            // object URLs created and not revoked, kept by the browser
    var loads: map<nat, Load>     // pending promises, kept by the event loop
    var next: nat

    ghost function View(): Cache
      reads this
    {
      Cache(token, status, document, mode, page, signature, slots, pageBlobUrls, live, loads, next)
    }

    constructor ()
      ensures View() == START
      ensures token == 0 && status == Closed && document == Document(0, 0, true) && mode == Continuous && page == 1
      ensures signature == Unsigned && slots == map[] && pageBlobUrls == map[] && live == {} && loads == map[]
      ensures next == 0
    {
      token, status, document, mode, page := 0, Closed, Document(0, 0, true), Continuous, 1;
      signature, slots, pageBlobUrls, live, loads, next := Unsigned, map[], map[], {}, map[], 0;
    }

    method ReleaseAll(sign: Signature)
      modifies this
      ensures View() == old(View()).DropAll(sign)
    {
      live := live - pageBlobUrls.Values;
      pageBlobUrls, slots, signature := map[], map[], sign;
    }

    method ReleasePage(p: int)
      modifies `live, `pageBlobUrls
      ensures pageBlobUrls == old(pageBlobUrls) - {p}
      ensures live == if p in old(pageBlobUrls) then old(live) - {old(pageBlobUrls)[p]} else old(live)
    {
      if p in pageBlobUrls {
        live := live - {pageBlobUrls[p]};
      }
      pageBlobUrls := pageBlobUrls - {p};
    }

    method LoadPage(p: int)
      modifies this
      ensures View() == old(View()).LoadPage(p)
    {
      if p in slots { return; }
      slots := slots[p := Image(next)];
      loads := loads[next := Load(p, token, Fetching)];
      next := next + 1;
    }

    method RenderPages()
      modifies this
      ensures View() == old(View()).Render()
    {
      var boxes := Stage();
      var wanted := WantedPages();
      SweepSlots(boxes, wanted);
    }

    /** The first part of a render: the pages to show, and their slots. */
    method Stage() returns (boxes: seq<int>)
      modifies this
      ensures boxes == View().Pages() && View() == old(View()).Staged()
    {
      boxes := if status != Ready || !document.images || document.claimed < 1 then []
               else Numbers(mode, document.listed, page);
      var sign := Signed(token, mode, boxes);
      if signature != sign { ReleaseAll(sign); }
    }

    method SweepSlots(boxes: seq<int>, wanted: set<int>)
      modifies this
      ensures View() == old(View()).Sweep(boxes, wanted)
    {
      ghost var base := View();
      for k := 0 to |boxes|
        invariant View().Sweep(boxes[k..], wanted) == base.Sweep(boxes, wanted)
      {
        assert boxes[k..][1..] == boxes[k + 1..];
        VisitSlot(boxes[k], wanted);
      }
    }

    method VisitSlot(p: int, wanted: set<int>)
      modifies this
      ensures View() == old(View()).Visit(p, wanted)
    {
      if p in wanted {
        LoadPage(p);
      } else if p in slots {
        slots := slots - {p};
        ReleasePage(p);
      }
    }

    method WantedPages() returns (wanted: set<int>)
      ensures wanted == View().Window()
    {
      if document.claimed < 1 { return {}; }
      if mode == Single { return {page}; }
      var p, last := MaxInt(1, page - RENDER_RADIUS), MinInt(document.claimed, page + RENDER_RADIUS);
      ghost var first := p;
      wanted := {};
      while p <= last
        invariant first <= p && (p <= last + 1 || p == first)
        invariant forall q :: q in wanted <==> first <= q < p
      {
        wanted := wanted + {p};
        p := p + 1;
      }
    }

    method Open() returns (stamp: nat)
      modifies this
      ensures View() == old(View()).Open() && stamp == token
    {
      token, status, document, page := token + 1, Loading, Document(0, 0, document.images), 1;
      ReleaseAll(Unsigned);
      RenderPages();
      stamp := token;
    }

    method Accept(stamp: nat, doc: Document) returns (taken: bool)
      modifies this
      ensures View() == old(View()).Accept(stamp, doc) && (taken <==> stamp == old(token))
    {
      if stamp != token { return false; }
      status, document, page := Ready, doc, if doc.claimed > 0 then 1 else 0;
      RenderPages();
      taken := true;
    }

    method Fail(stamp: nat)
      modifies this
      ensures View() == old(View()).Fail(stamp)
    {
      if stamp == token { status := Error; }
      RenderPages();
    }

    method Close()
      modifies this
      ensures View() == old(View()).Close()
    {
      token, status, document, page := token + 1, Closed, Document(0, 0, document.images), 1;
      ReleaseAll(Unsigned);
      RenderPages();
    }

    method Retry(p: int)
      modifies this
      ensures View() == old(View()).Retry(p)
    {
      if p in slots && slots[p] == RetryButton {
        slots := slots - {p};
        LoadPage(p);
      }
    }

    method BytesArrive(l: nat, answer: Answer)
      modifies this
      ensures View() == old(View()).Arrive(l, answer)
    {
      if l !in loads || loads[l].stage != Fetching { return; }
      if answer.NotOk? {
        loads := loads[l := loads[l].(stage := Refused(answer.unauthorized))];
      } else if loads[l].token != token {
        loads := loads[l := loads[l].(stage := Finished)];
      } else {
        loads := loads[l := loads[l].(stage := Minted)];
        live := live + {l};
      }
    }

    method RunThen(l: nat)
      modifies this
      ensures View() == old(View()).Settle(l)
    {
      if l !in loads { return; }
      var p, stage := loads[l].page, loads[l].stage;
      var connected := p in slots && slots[p] == Image(l);
      if stage == Minted {
        loads := loads[l := loads[l].(stage := Finished)];
        if connected { pageBlobUrls := pageBlobUrls[p := l]; } else { live := live - {l}; }
      } else if stage.Refused? {
        loads := loads[l := loads[l].(stage := Finished)];
        if connected {
          slots := slots - {p};
          if stage.unauthorized { Fail(token); } else { slots := slots[p := RetryButton]; }
        }
      }
    }
  }
}
