/**
 * The component registry: component definitions are queued, their format,
 * external-language and requested keynode identifiers are resolved to
 * sc-addrs in one batch, and three flat maps are built from the result:
 * format -> component, external language -> component, and external
 * language -> its component's resolved formats in declaration order.
 *
 * Addresses are naturals; 0 stands for every falsy value the resolver can
 * hand back, so an identifier "resolves" when it is a key of the resolved
 * map with a non-zero address.
 */
module ComponentManager {
  import opened Wrappers

  type Addr = nat

  /**
   * A queued component definition. `requestKeynodes` is the result of its
   * optional `getRequestKeynodes`; `extLang` is `None` when the property is
   * absent; `factory` identifies its (opaque) factory function.
   */
  datatype ComponentDef = ComponentDef(
    formats: seq<string>,
    requestKeynodes: Option<seq<string>>,
    extLang: Option<string>,
    structSupport: bool,
    factory: nat)

  /** The manager's state. */
  datatype Registry = Registry(
    queue: seq<ComponentDef>,
    componentCount: nat,
    factoriesFmt: map<Addr, ComponentDef>,
    factoriesExtLang: map<Addr, ComponentDef>,
    extLangs: map<Addr, seq<Addr>>,
    keynodes: map<string, Addr>)

  const Empty := Registry([], 0, map[], map[], map[], map[])

  /** The error a query throws. */
  datatype Error = NoComponentForFormat(format: Addr) | StructNotSupported | CantCreateViewer | TypeError

  function Lookup<K, V>(m: map<K, V>, k: K): Option<V> {
    if k in m then Some(m[k]) else None
  }

  /** `addrs[id]` when it is truthy. */
  function Resolve(addrs: map<string, Addr>, id: string): Option<Addr> {
    if id in addrs && addrs[id] != 0 then Some(addrs[id]) else None
  }

  /** `addrs[comp_def.ext_lang]` when it is truthy. */
  function ResolveLang(addrs: map<string, Addr>, c: ComponentDef): Option<Addr> {
    match c.extLang
    case None => None
    case Some(l) => Resolve(addrs, l)
  }

  // ---------------------------------------------------------------------------
  // Queueing and keynode collection

  /** `appendComponentInitialize`: the definition joins the end of the queue; nothing is registered yet. */
  function AppendComponentInitialize(r: Registry, c: ComponentDef): (r': Registry)
    ensures |r'.queue| == |r.queue| + 1 && r'.queue[..|r.queue|] == r.queue && r'.queue[|r.queue|] == c
    ensures r'.factoriesFmt == r.factoriesFmt && r'.factoriesExtLang == r.factoriesExtLang
    ensures r'.extLangs == r.extLangs && r'.keynodes == r.keynodes && r'.componentCount == r.componentCount
  {
    r.(queue := r.queue + [c])
  }

  /** The identifiers one definition asks to resolve: formats, requested keynodes, then a truthy ext_lang. */
  function Requested(c: ComponentDef): seq<string> {
    c.formats
    + (match c.requestKeynodes case Some(ks) => ks case None => [])
    + (match c.extLang case Some(l) => if l != "" then [l] else [] case None => [])
  }

  /** Reference definition: the per-component requests concatenated in queue order. */
  function RequestedKeynodes(q: seq<ComponentDef>): seq<string> {
    if |q| == 0 then [] else RequestedKeynodes(q[..|q| - 1]) + Requested(q[|q| - 1])
  }

  /** The keynode collection loop of `init`. */
  method CollectKeynodes(q: seq<ComponentDef>) returns (keynodes: seq<string>)
    ensures keynodes == RequestedKeynodes(q)
    ensures forall i, j :: 0 <= i < |q| && 0 <= j < |q[i].formats| ==> q[i].formats[j] in keynodes
  {
    keynodes := [];
    var i := 0;
    while i < |q|
      invariant 0 <= i <= |q|
      invariant keynodes == RequestedKeynodes(q[..i])
    {
      var c := q[i];
      keynodes := keynodes + c.formats;
      if c.requestKeynodes.Some? {
        keynodes := keynodes + c.requestKeynodes.value;
      }
      if c.extLang.Some? && c.extLang.value != "" {
        keynodes := keynodes + [c.extLang.value];
      }
      assert q[..i + 1][..i] == q[..i];
      i := i + 1;
    }
    assert q[..|q|] == q;
    forall i, j | 0 <= i < |q| && 0 <= j < |q[i].formats|
      ensures q[i].formats[j] in keynodes
    {
      RequestedContainsFormats(q, i, j);
    }
  }

  /** Every format identifier of every queued definition is among the requested keynodes. */
  lemma {:induction false} RequestedContainsFormats(q: seq<ComponentDef>, i: nat, j: nat)
    requires i < |q| && j < |q[i].formats|
    ensures q[i].formats[j] in RequestedKeynodes(q)
  {
    var n := |q| - 1;
    if i == n {
      assert Requested(q[n])[j] == q[i].formats[j];
    } else {
      RequestedContainsFormats(q[..n], i, j);
    }
  }

  // ---------------------------------------------------------------------------
  // Registration

  /** `registerFactory`: the format now maps to the component; nothing else changes. */
  function RegisterFactory(r: Registry, format: Addr, c: ComponentDef): (r': Registry)
    ensures Lookup(r'.factoriesFmt, format) == Some(c)
    ensures forall a :: a != format ==> Lookup(r'.factoriesFmt, a) == Lookup(r.factoriesFmt, a)
    ensures r'.factoriesFmt.Keys == r.factoriesFmt.Keys + {format}
    ensures r'.(factoriesFmt := r.factoriesFmt) == r
  {
    r.(factoriesFmt := r.factoriesFmt[format := c])
  }

  /** Reference definition: the truthy resolutions of `fmts`, in order. */
  function ResolvedFormats(addrs: map<string, Addr>, fmts: seq<string>): seq<Addr> {
    if |fmts| == 0 then []
    else
      (match Resolve(addrs, fmts[0]) case Some(a) => [a] case None => [])
      + ResolvedFormats(addrs, fmts[1..])
  }

  /** An address is among the resolved formats exactly when some listed format resolves to it. */
  lemma {:induction false} ResolvedFormatsMembers(addrs: map<string, Addr>, fmts: seq<string>, a: Addr)
    ensures a in ResolvedFormats(addrs, fmts) <==> exists j :: 0 <= j < |fmts| && Resolve(addrs, fmts[j]) == Some(a)
  {
    if |fmts| > 0 {
      ResolvedFormatsMembers(addrs, fmts[1..], a);
      if exists j :: 0 <= j < |fmts| && Resolve(addrs, fmts[j]) == Some(a) {
        var j :| 0 <= j < |fmts| && Resolve(addrs, fmts[j]) == Some(a);
        if j > 0 {
          assert fmts[1..][j - 1] == fmts[j];
        }
      }
    }
  }

  /** Resolution keeps declaration order: resolving a concatenation concatenates the results. */
  lemma {:induction false} ResolvedFormatsAppend(addrs: map<string, Addr>, xs: seq<string>, ys: seq<string>)
    ensures ResolvedFormats(addrs, xs + ys) == ResolvedFormats(addrs, xs) + ResolvedFormats(addrs, ys)
  {
    if |xs| > 0 {
      assert (xs + ys)[1..] == xs[1..] + ys;
      ResolvedFormatsAppend(addrs, xs[1..], ys);
    } else {
      assert xs + ys == ys;
    }
  }

  /**
   * The inner loop of `init` over one definition's formats: each truthy
   * resolution is registered for `c` and collected, in order.
   */
  function RegisterFormats(r: Registry, c: ComponentDef, addrs: map<string, Addr>, fmts: seq<string>): (res: (Registry, seq<Addr>))
    ensures res.1 == ResolvedFormats(addrs, fmts)
    ensures res.0.factoriesFmt.Keys == r.factoriesFmt.Keys + set a | a in res.1
    ensures forall a :: a in res.1 ==> res.0.factoriesFmt[a] == c
    ensures forall a :: a !in res.1 ==> Lookup(res.0.factoriesFmt, a) == Lookup(r.factoriesFmt, a)
    ensures res.0.(factoriesFmt := r.factoriesFmt) == r
    decreases |fmts|
  {
    if |fmts| == 0 then (r, [])
    else
      match Resolve(addrs, fmts[0])
      case None => RegisterFormats(r, c, addrs, fmts[1..])
      case Some(a) =>
        var (r', rest) := RegisterFormats(RegisterFactory(r, a, c), c, addrs, fmts[1..]);
        (r', [a] + rest)
  }

  /**
   * One pass of the registration loop of `init` for one definition: its
   * resolved formats and its resolved language now point at it, the
   * language's list is its resolved formats, and every other entry is kept.
   */
  function RegisterComponent(r: Registry, c: ComponentDef, addrs: map<string, Addr>): (r': Registry)
    ensures r'.queue == r.queue && r'.componentCount == r.componentCount && r'.keynodes == r.keynodes
    ensures forall a: Addr :: a in ResolvedFormats(addrs, c.formats) ==> Lookup(r'.factoriesFmt, a) == Some(c)
    ensures forall a: Addr :: a !in ResolvedFormats(addrs, c.formats) ==> Lookup(r'.factoriesFmt, a) == Lookup(r.factoriesFmt, a)
    ensures ResolveLang(addrs, c).Some? ==>
      Lookup(r'.factoriesExtLang, ResolveLang(addrs, c).value) == Some(c) &&
      Lookup(r'.extLangs, ResolveLang(addrs, c).value) == Some(ResolvedFormats(addrs, c.formats))
    ensures forall l: Addr :: ResolveLang(addrs, c) != Some(l) ==>
      Lookup(r'.factoriesExtLang, l) == Lookup(r.factoriesExtLang, l) && Lookup(r'.extLangs, l) == Lookup(r.extLangs, l)
  {
    var lang := ResolveLang(addrs, c);
    var r1 := if lang.Some? then r.(factoriesExtLang := r.factoriesExtLang[lang.value := c]) else r;
    var (r2, formats) := RegisterFormats(r1, c, addrs, c.formats);
    if lang.Some? then r2.(extLangs := r2.extLangs[lang.value := formats]) else r2
  }

  /** The registration loop over a queue, the last definition processed last; it touches only the three maps. */
  function RegisterAll(r: Registry, q: seq<ComponentDef>, addrs: map<string, Addr>): (r': Registry)
    ensures r'.queue == r.queue && r'.componentCount == r.componentCount && r'.keynodes == r.keynodes
  {
    if |q| == 0 then r
    else RegisterComponent(RegisterAll(r, q[..|q| - 1], addrs), q[|q| - 1], addrs)
  }

  /**
   * `init`: counts the queue, asks `resolve` for the collected keynodes, keeps
   * the resolved map as the keynode table and registers every queued definition.
   */
  function Init(r: Registry, resolve: seq<string> -> map<string, Addr>): (r': Registry)
    ensures r'.componentCount == |r.queue| && r'.queue == r.queue
    ensures r'.keynodes == resolve(RequestedKeynodes(r.queue))
  {
    var addrs := resolve(RequestedKeynodes(r.queue));
    RegisterAll(r.(componentCount := |r.queue|, keynodes := addrs), r.queue, addrs)
  }

  // ---------------------------------------------------------------------------
  // Last writer wins

  /** Reference definition: the last definition in `q` with a format resolving to `a`. */
  function LastProvider(q: seq<ComponentDef>, addrs: map<string, Addr>, a: Addr): Option<ComponentDef> {
    if |q| == 0 then None
    else if a in ResolvedFormats(addrs, q[|q| - 1].formats) then Some(q[|q| - 1])
    else LastProvider(q[..|q| - 1], addrs, a)
  }

  /** Reference definition: the last definition in `q` whose ext_lang resolves to `l`. */
  function LastDeclarer(q: seq<ComponentDef>, addrs: map<string, Addr>, l: Addr): Option<ComponentDef> {
    if |q| == 0 then None
    else if ResolveLang(addrs, q[|q| - 1]) == Some(l) then Some(q[|q| - 1])
    else LastDeclarer(q[..|q| - 1], addrs, l)
  }

  /** After registration a format maps to the last definition listing it, or to what it mapped to before. */
  lemma {:induction false} FormatMapsToLastProvider(r: Registry, q: seq<ComponentDef>, addrs: map<string, Addr>, a: Addr)
    ensures Lookup(RegisterAll(r, q, addrs).factoriesFmt, a) ==
      match LastProvider(q, addrs, a) case Some(c) => Some(c) case None => Lookup(r.factoriesFmt, a)
  {
    if |q| > 0 {
      FormatMapsToLastProvider(r, q[..|q| - 1], addrs, a);
    }
  }

  /**
   * After registration a language maps to the last definition declaring it,
   * and its format list is exactly that definition's resolved formats.
   */
  lemma {:induction false} ExtLangMapsToLastDeclarer(r: Registry, q: seq<ComponentDef>, addrs: map<string, Addr>, l: Addr)
    ensures Lookup(RegisterAll(r, q, addrs).factoriesExtLang, l) ==
      match LastDeclarer(q, addrs, l) case Some(c) => Some(c) case None => Lookup(r.factoriesExtLang, l)
    ensures Lookup(RegisterAll(r, q, addrs).extLangs, l) ==
      match LastDeclarer(q, addrs, l)
      case Some(c) => Some(ResolvedFormats(addrs, c.formats))
      case None => Lookup(r.extLangs, l)
  {
    if |q| > 0 {
      ExtLangMapsToLastDeclarer(r, q[..|q| - 1], addrs, l);
    }
  }

  /** Some definition lists a format resolving to `a` exactly when a last provider exists. */
  lemma {:induction false} LastProviderExists(q: seq<ComponentDef>, addrs: map<string, Addr>, a: Addr)
    ensures LastProvider(q, addrs, a).Some? <==>
      exists i, j :: 0 <= i < |q| && 0 <= j < |q[i].formats| && Resolve(addrs, q[i].formats[j]) == Some(a)
    ensures LastProvider(q, addrs, a).Some? ==> LastProvider(q, addrs, a).value in q
  {
    if |q| > 0 {
      var n := |q| - 1;
      LastProviderExists(q[..n], addrs, a);
      ResolvedFormatsMembers(addrs, q[n].formats, a);
      if exists i, j :: 0 <= i < |q| && 0 <= j < |q[i].formats| && Resolve(addrs, q[i].formats[j]) == Some(a) {
        var i, j :| 0 <= i < |q| && 0 <= j < |q[i].formats| && Resolve(addrs, q[i].formats[j]) == Some(a);
        if i < n {
          assert q[..n][i] == q[i];
        }
      }
      if LastProvider(q[..n], addrs, a).Some? {
        assert LastProvider(q[..n], addrs, a).value in q[..n];
      }
    }
  }

  /**
   * Starting from the empty registry, the registered formats are exactly the
   * truthy resolutions of queued formats: an unresolved format is never registered.
   */
  lemma RegisteredFormatsAreResolved(q: seq<ComponentDef>, addrs: map<string, Addr>, a: Addr)
    ensures a in RegisterAll(Empty, q, addrs).factoriesFmt <==>
      exists i, j :: 0 <= i < |q| && 0 <= j < |q[i].formats| && Resolve(addrs, q[i].formats[j]) == Some(a)
  {
    FormatMapsToLastProvider(Empty, q, addrs, a);
    LastProviderExists(q, addrs, a);
  }

  /**
   * `init` itself: with `addrs` the resolver's answer to the collected
   * keynodes, each format and each language ends up with its last writer in
   * the queue, and each language's list with that writer's resolved formats.
   */
  lemma InitRegistersLastWriters(r: Registry, resolve: seq<string> -> map<string, Addr>, a: Addr, l: Addr)
    ensures var addrs := resolve(RequestedKeynodes(r.queue));
      && Lookup(Init(r, resolve).factoriesFmt, a) ==
         (match LastProvider(r.queue, addrs, a) case Some(c) => Some(c) case None => Lookup(r.factoriesFmt, a))
      && Lookup(Init(r, resolve).factoriesExtLang, l) ==
         (match LastDeclarer(r.queue, addrs, l) case Some(c) => Some(c) case None => Lookup(r.factoriesExtLang, l))
      && Lookup(Init(r, resolve).extLangs, l) ==
         (match LastDeclarer(r.queue, addrs, l)
          case Some(c) => Some(ResolvedFormats(addrs, c.formats))
          case None => Lookup(r.extLangs, l))
  {
    var addrs := resolve(RequestedKeynodes(r.queue));
    var start := r.(componentCount := |r.queue|, keynodes := addrs);
    FormatMapsToLastProvider(start, r.queue, addrs, a);
    ExtLangMapsToLastDeclarer(start, r.queue, addrs, l);
  }

  // ---------------------------------------------------------------------------
  // Queries

  /** `isStructSupported`: throws when no component serves the format, else that component's flag. */
  function IsStructSupported(r: Registry, format: Addr): (res: Result<bool, Error>)
    ensures res.Failure? <==> format !in r.factoriesFmt
    ensures res.Failure? ==> res.error == NoComponentForFormat(format)
    ensures res.Success? ==> res.value == r.factoriesFmt[format].structSupport
  {
    if format in r.factoriesFmt then Success(r.factoriesFmt[format].structSupport)
    else Failure(NoComponentForFormat(format))
  }

  /** After `init`, `isStructSupported` answers with the flag of the last definition listing the format. */
  lemma StructSupportAfterInit(r: Registry, q: seq<ComponentDef>, addrs: map<string, Addr>, a: Addr)
    ensures IsStructSupported(RegisterAll(r, q, addrs), a) ==
      match LastProvider(q, addrs, a)
      case Some(c) => Success(c.structSupport)
      case None => IsStructSupported(r, a)
  {
    FormatMapsToLastProvider(r, q, addrs, a);
  }

  /** `getPrimaryFormatForExtLang`: the first format of the language's list, `None` if unknown or empty. */
  function PrimaryFormatForExtLang(r: Registry, lang: Addr): (res: Option<Addr>)
    ensures res.Some? <==> lang in r.extLangs && |r.extLangs[lang]| > 0
    ensures res.Some? ==> res.value == r.extLangs[lang][0]
  {
    if lang in r.extLangs && |r.extLangs[lang]| > 0 then Some(r.extLangs[lang][0]) else None
  }

  /**
   * Starting from the empty registry, a language's primary format is the
   * first resolved format of the last definition declaring it.
   */
  lemma PrimaryFormatAfterInit(q: seq<ComponentDef>, addrs: map<string, Addr>, l: Addr)
    ensures PrimaryFormatForExtLang(RegisterAll(Empty, q, addrs), l) ==
      match LastDeclarer(q, addrs, l)
      case Some(c) =>
        var fs := ResolvedFormats(addrs, c.formats);
        if |fs| > 0 then Some(fs[0]) else None
      case None => None
  {
    ExtLangMapsToLastDeclarer(Empty, q, addrs, l);
  }

  /** The least element of a finite non-empty set of addresses. */
  ghost function Least(s: set<Addr>): (l: Addr)
    requires s != {}
    ensures l in s
    ensures forall m :: m in s ==> l <= m
    decreases |s|
  {
    var x :| x in s;
    if s == {x} then x
    else
      var y := Least(s - {x});
      assert forall m :: m in s ==> m == x || m in s - {x};
      if x <= y then x else y
  }

  /**
   * `getScStructSupportExtLangs`: every registered language whose component
   * supports structures, each once. `for...in` enumerates integer-like keys
   * in ascending numeric order, so the languages come out ascending.
   */
  method ScStructSupportExtLangs(r: Registry) returns (res: seq<Addr>)
    ensures forall l :: l in res <==> l in r.factoriesExtLang && r.factoriesExtLang[l].structSupport
    ensures forall i, j :: 0 <= i < j < |res| ==> res[i] != res[j]
    ensures forall i, j :: 0 <= i < j < |res| ==> res[i] < res[j]
  {
    res := [];
    var todo := r.factoriesExtLang.Keys;
    while todo != {}
      invariant todo <= r.factoriesExtLang.Keys
      invariant forall l :: l in res <==> l in r.factoriesExtLang.Keys - todo && r.factoriesExtLang[l].structSupport
      invariant forall i, j :: 0 <= i < j < |res| ==> res[i] < res[j]
      invariant forall i, m :: 0 <= i < |res| && m in todo ==> res[i] < m
      decreases todo
    {
      ghost var least := Least(todo);
      var l :| l in todo && forall m :: m in todo ==> l <= m;
      if r.factoriesExtLang[l].structSupport {
        res := res + [l];
      }
      todo := todo - {l};
      assert forall i, m :: 0 <= i < |res| && m in todo ==> res[i] < m;
    }
  }

  // ---------------------------------------------------------------------------
  // Window creation

  /** What a component factory returns: `null`/`undefined`, another falsy value, or a component. */
  datatype FactoryResult = NullComponent | FalsyComponent | Component

  /** How `createWindowSandboxByFormat` settles its promise. */
  datatype FormatOutcome = Resolved | Rejected | Threw(error: Error)

  /** What `createWindowSandboxByExtLang` does: returns the sandbox, returns null, or throws. */
  datatype ExtLangOutcome = ReturnedSandbox | ReturnedNull | ThrewError(error: Error)

  /** An attempt to create a window: whether the factory was invoked, and the outcome. */
  datatype Attempt<T> = Attempt(factoryCalled: bool, outcome: T)

  /** A struct window was asked of a component that cannot show structures. */
  predicate StructViolation(c: ComponentDef, isStruct: bool) {
    isStruct && !c.structSupport
  }

  /**
   * `createWindowSandboxByFormat`, as written: the factory result's `editor`
   * is read before the result is tested, so a null result throws a TypeError.
   */
  function CreateWindowByFormat(r: Registry, format: Addr, isStruct: bool, factory: FactoryResult): (res: Attempt<FormatOutcome>)
    ensures res.outcome == Rejected <==> format !in r.factoriesFmt
    ensures res.factoryCalled <==> format in r.factoriesFmt && !StructViolation(r.factoriesFmt[format], isStruct)
    ensures res.outcome == Threw(StructNotSupported) <==>
      format in r.factoriesFmt && StructViolation(r.factoriesFmt[format], isStruct)
    ensures res.factoryCalled ==> (res.outcome == Resolved <==> factory == Component)
    ensures res.factoryCalled && factory == NullComponent ==> res.outcome == Threw(TypeError)
    ensures res.factoryCalled && factory == FalsyComponent ==> res.outcome == Threw(CantCreateViewer)
  {
    if format !in r.factoriesFmt then Attempt(false, Rejected)
    else if !r.factoriesFmt[format].structSupport && isStruct then Attempt(false, Threw(StructNotSupported))
    else
      match factory
      case NullComponent => Attempt(true, Threw(TypeError))
      case FalsyComponent => Attempt(true, Threw(CantCreateViewer))
      case Component => Attempt(true, Resolved)
  }

  /** A factory returning null makes the as-written call throw a TypeError, never "Can't create viewer properly". */
  lemma NullFactoryThrowsTypeError(r: Registry, format: Addr, isStruct: bool)
    requires format in r.factoriesFmt && (r.factoriesFmt[format].structSupport || !isStruct)
    ensures CreateWindowByFormat(r, format, isStruct, NullComponent) == Attempt(true, Threw(TypeError))
  {
  }

  /** `createWindowSandboxByFormat` with the factory result tested before it is used. */
  function CreateWindowByFormatIntended(r: Registry, format: Addr, isStruct: bool, factory: FactoryResult): (res: Attempt<FormatOutcome>)
    ensures res.outcome == Rejected <==> format !in r.factoriesFmt
    ensures res.factoryCalled <==> format in r.factoriesFmt && !StructViolation(r.factoriesFmt[format], isStruct)
    ensures res.outcome == Threw(StructNotSupported) <==>
      format in r.factoriesFmt && StructViolation(r.factoriesFmt[format], isStruct)
    ensures res.factoryCalled ==> (res.outcome == Resolved <==> factory == Component)
    ensures res.factoryCalled && factory != Component ==> res.outcome == Threw(CantCreateViewer)
  {
    if format !in r.factoriesFmt then Attempt(false, Rejected)
    else if !r.factoriesFmt[format].structSupport && isStruct then Attempt(false, Threw(StructNotSupported))
    else if factory == Component then Attempt(true, Resolved)
    else Attempt(true, Threw(CantCreateViewer))
  }

  /** The two definitions agree on every input except a null factory result. */
  lemma IntendedDiffersOnlyOnNull(r: Registry, format: Addr, isStruct: bool, factory: FactoryResult)
    ensures factory != NullComponent ==>
      CreateWindowByFormatIntended(r, format, isStruct, factory) == CreateWindowByFormat(r, format, isStruct, factory)
  {
  }

  /** `createWindowSandboxByExtLang`: null for an unknown language, a throw on the struct-support violation. */
  function CreateWindowByExtLang(r: Registry, lang: Addr, isStruct: bool, factory: FactoryResult): (res: Attempt<ExtLangOutcome>)
    ensures lang !in r.factoriesExtLang ==> res == Attempt(false, ReturnedNull)
    ensures res.factoryCalled <==> lang in r.factoriesExtLang && !StructViolation(r.factoriesExtLang[lang], isStruct)
    ensures res.outcome.ThrewError? <==> lang in r.factoriesExtLang && StructViolation(r.factoriesExtLang[lang], isStruct)
    ensures res.outcome.ThrewError? ==> res.outcome.error == StructNotSupported
    ensures res.factoryCalled ==> (res.outcome == ReturnedSandbox <==> factory == Component)
    ensures res.factoryCalled && factory != Component ==> res.outcome == ReturnedNull
  {
    if lang !in r.factoriesExtLang then Attempt(false, ReturnedNull)
    else if !r.factoriesExtLang[lang].structSupport && isStruct then Attempt(false, ThrewError(StructNotSupported))
    else if factory == Component then Attempt(true, ReturnedSandbox)
    else Attempt(true, ReturnedNull)
  }

  /**
   * After registration from the empty registry, window creation by format is
   * decided by the last definition listing the format: rejected when there
   * is none, a throw without a factory call when it cannot show the
   * requested structure, and otherwise a factory call.
   */
  lemma WindowByFormatAfterInit(q: seq<ComponentDef>, addrs: map<string, Addr>, a: Addr, isStruct: bool, factory: FactoryResult)
    ensures var res := CreateWindowByFormat(RegisterAll(Empty, q, addrs), a, isStruct, factory);
      && (res.outcome == Rejected <==> LastProvider(q, addrs, a).None?)
      && (res.outcome == Threw(StructNotSupported) <==>
            LastProvider(q, addrs, a).Some? && StructViolation(LastProvider(q, addrs, a).value, isStruct))
      && (res.factoryCalled <==>
            LastProvider(q, addrs, a).Some? && !StructViolation(LastProvider(q, addrs, a).value, isStruct))
  {
    FormatMapsToLastProvider(Empty, q, addrs, a);
  }

  /**
   * After registration from the empty registry, window creation by language
   * is decided by the last definition declaring it in the same way.
   */
  lemma WindowByExtLangAfterInit(q: seq<ComponentDef>, addrs: map<string, Addr>, l: Addr, isStruct: bool, factory: FactoryResult)
    ensures var res := CreateWindowByExtLang(RegisterAll(Empty, q, addrs), l, isStruct, factory);
      && (LastDeclarer(q, addrs, l).None? ==> res == Attempt(false, ReturnedNull))
      && (res.outcome.ThrewError? <==>
            LastDeclarer(q, addrs, l).Some? && StructViolation(LastDeclarer(q, addrs, l).value, isStruct))
      && (res.factoryCalled <==>
            LastDeclarer(q, addrs, l).Some? && !StructViolation(LastDeclarer(q, addrs, l).value, isStruct))
  {
    ExtLangMapsToLastDeclarer(Empty, q, addrs, l);
  }
}
