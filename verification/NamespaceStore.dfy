/** The namespace and command registry of control.c as a value: matching, registration,
    lookup, and what every sequence of registrations keeps. */
module NamespaceStore {
  import opened Bytes

  /** A command: its ID and a token that stands for handler and user data. */
  datatype Command = Command(id: byte, handler: nat)

  /** A namespace entry with its command list, oldest first. */
  datatype Entry = Entry(name: seq<byte>, commands: seq<Command>)

  type Registry = seq<Entry>

  // --- strncmp and strncpy ---------------------------------------------------

  /** strncmp(a, b, n) == 0: equal up to n bytes or up to a common NUL. */
  predicate StrncmpEq(a: seq<byte>, b: seq<byte>, n: nat)
    requires n <= |a| && n <= |b|
  {
    n == 0 || (a[0] == b[0] && (a[0] == 0 || StrncmpEq(a[1..], b[1..], n - 1)))
  }

  /** strncpy of n == |src| bytes: NULs from the first NUL on. */
  function Strncpy(src: seq<byte>): (dst: seq<byte>)
    ensures |dst| == |src|
  {
    if src == [] then []
    else if src[0] == 0 then seq(|src|, _ => 0)
    else [src[0]] + Strncpy(src[1..])
  }

  /** es_control_namespace_store_match: compares only the shorter length. */
  predicate Match(name: seq<byte>, query: seq<byte>) {
    var n := if |query| < |name| then |query| else |name|;
    StrncmpEq(query, name, n)
  }

  ghost predicate ZeroFree(s: seq<byte>) {
    0 !in s
  }

  lemma {:induction false} StrncmpSymmetric(a: seq<byte>, b: seq<byte>, n: nat)
    requires n <= |a| && n <= |b|
    ensures StrncmpEq(a, b, n) == StrncmpEq(b, a, n)
  {
    if n > 0 && a[0] == b[0] {
      StrncmpSymmetric(a[1..], b[1..], n - 1);
    }
  }

  lemma MatchSymmetric(a: seq<byte>, b: seq<byte>)
    ensures Match(a, b) == Match(b, a)
  {
    StrncmpSymmetric(a, b, if |a| < |b| then |a| else |b|);
  }

  lemma {:induction false} StrncmpZeroFree(a: seq<byte>, b: seq<byte>, n: nat)
    requires n <= |a| && n <= |b|
    requires ZeroFree(a[..n])
    ensures StrncmpEq(a, b, n) <==> a[..n] == b[..n]
  {
    if n > 0 {
      assert a[0] == a[..n][0];
      assert a[1..][..n - 1] == a[..n][1..];
      StrncmpZeroFree(a[1..], b[1..], n - 1);
      assert a[..n] == [a[0]] + a[1..][..n - 1];
      assert b[..n] == [b[0]] + b[1..][..n - 1];
    }
  }

  /** For a zero-free query, matching is prefix comparability of the names themselves. */
  lemma MatchZeroFree(name: seq<byte>, query: seq<byte>)
    requires ZeroFree(query)
    ensures Match(name, query) <==> name <= query || query <= name
  {
    var n := if |query| < |name| then |query| else |name|;
    assert ZeroFree(query[..n]);
    StrncmpZeroFree(query, name, n);
    if |query| < |name| {
      assert query[..n] == query;
    } else {
      assert name[..n] == name;
    }
  }

  /** strncmp cannot tell a name from its strncpy copy. */
  lemma {:induction false} StrncmpOfCopy(src: seq<byte>, b: seq<byte>, n: nat)
    requires n <= |src| && n <= |b|
    ensures StrncmpEq(Strncpy(src), b, n) == StrncmpEq(src, b, n)
  {
    if n > 0 {
      if src[0] == 0 {
        assert Strncpy(src)[0] == 0;
      } else {
        assert Strncpy(src)[1..] == Strncpy(src[1..]);
        StrncmpOfCopy(src[1..], b[1..], n - 1);
      }
    }
  }

  lemma {:induction false} MatchOfCopy(name: seq<byte>, src: seq<byte>)
    ensures Match(name, Strncpy(src)) == Match(name, src)
    ensures Match(Strncpy(src), name) == Match(src, name)
  {
    StrncmpOfCopy(src, name, if |src| < |name| then |src| else |name|);
    MatchSymmetric(Strncpy(src), name);
    MatchSymmetric(src, name);
  }

  /** strncmp compares what strncpy copies. */
  lemma {:induction false} StrncmpIsOfCopies(a: seq<byte>, b: seq<byte>, n: nat)
    requires n <= |a| && n <= |b|
    ensures StrncmpEq(a, b, n) <==> Strncpy(a)[..n] == Strncpy(b)[..n]
  {
    if n > 0 {
      assert Strncpy(a)[..n][0] == a[0] && Strncpy(b)[..n][0] == b[0];
      if a[0] == b[0] != 0 {
        StrncmpIsOfCopies(a[1..], b[1..], n - 1);
        assert Strncpy(a)[..n] == [a[0]] + Strncpy(a[1..])[..n - 1];
        assert Strncpy(b)[..n] == [b[0]] + Strncpy(b[1..])[..n - 1];
        assert Strncpy(a)[..n][1..] == Strncpy(a[1..])[..n - 1];
        assert Strncpy(b)[..n][1..] == Strncpy(b[1..])[..n - 1];
      }
    }
  }

  /** Matching is prefix comparability of what strncpy copies: neither the query nor the
      entry has to be the whole of the other. */
  lemma {:induction false} MatchIsPrefixComparability(name: seq<byte>, query: seq<byte>)
    ensures Match(name, query) <==> Strncpy(name) <= Strncpy(query) || Strncpy(query) <= Strncpy(name)
  {
    var n := if |query| < |name| then |query| else |name|;
    StrncmpIsOfCopies(query, name, n);
    if |query| < |name| {
      assert Strncpy(query)[..n] == Strncpy(query);
    } else {
      assert Strncpy(name)[..n] == Strncpy(name);
    }
  }

  lemma {:induction false} PrefixIsMatch(a: seq<byte>, b: seq<byte>)
    requires a <= b
    ensures Match(a, b)
  {
    StrncmpReflexive(b, |a|);
    StrncmpOfPrefix(b, b, a, |a|);
  }

  lemma {:induction false} StrncmpOfPrefix(a: seq<byte>, b: seq<byte>, c: seq<byte>, n: nat)
    requires n <= |a| && n <= |b| && n <= |c| && c[..n] == b[..n] && StrncmpEq(a, b, n)
    ensures StrncmpEq(a, c, n)
  {
    if n > 0 {
      assert c[0] == c[..n][0] && b[0] == b[..n][0];
      assert c[1..][..n - 1] == c[..n][1..] && b[1..][..n - 1] == b[..n][1..];
      if a[0] != 0 {
        StrncmpOfPrefix(a[1..], b[1..], c[1..], n - 1);
      }
    }
  }

  lemma {:induction false} StrncmpReflexive(a: seq<byte>, n: nat)
    requires n <= |a|
    ensures StrncmpEq(a, a, n)
  {
    if n > 0 {
      StrncmpReflexive(a[1..], n - 1);
    }
  }

  /** Two prefixes (in the sense of strncmp) of one query match each other. */
  lemma {:induction false} StrncmpCommon(a: seq<byte>, b: seq<byte>, q: seq<byte>, n: nat)
    requires n <= |a| && n <= |b| && n <= |q|
    requires StrncmpEq(q, a, n) && StrncmpEq(q, b, n)
    ensures StrncmpEq(a, b, n)
  {
    if n > 0 && q[0] != 0 {
      StrncmpCommon(a[1..], b[1..], q[1..], n - 1);
    }
  }

  lemma {:induction false} StrncmpShorter(a: seq<byte>, b: seq<byte>, n: nat, m: nat)
    requires m <= n <= |a| && n <= |b|
    requires StrncmpEq(a, b, n)
    ensures StrncmpEq(a, b, m)
  {
    if m > 0 && a[0] != 0 {
      StrncmpShorter(a[1..], b[1..], n - 1, m - 1);
    }
  }

  // --- The registry ------------------------------------------------------------

  const BUILTIN_NAME: seq<byte> :=
    [0x65, 0x76, 0x65, 0x6e, 0x74, 0x6c, 0x6f, 0x67, 0x2d, 0x73, 0x6f, 0x63, 0x6b, 0x65, 0x74]

  const BUILTIN_COMMANDS: seq<Command> :=
    [Command(1, 1), Command(2, 2), Command(3, 3), Command(4, 4), Command(5, 5)]

  const BUILTIN: Entry := Entry(BUILTIN_NAME, BUILTIN_COMMANDS)

  /** The first entry, from index i on, that matches. */
  function FindFrom(reg: Registry, query: seq<byte>, i: nat): (r: Option<nat>)
    requires i <= |reg|
    decreases |reg| - i
    ensures r.Some? ==> i <= r.value < |reg| && Match(reg[r.value].name, query)
    ensures r.Some? ==> forall j :: i <= j < r.value ==> !Match(reg[j].name, query)
    ensures r.None? ==> forall j :: i <= j < |reg| ==> !Match(reg[j].name, query)
  {
    if i == |reg| then None
    else if Match(reg[i].name, query) then Some(i)
    else FindFrom(reg, query, i + 1)
  }

  /** es_control_namespace_store_resolve. */
  function Resolve(reg: Registry, query: seq<byte>): (r: Option<nat>)
    ensures r.Some? ==> r.value < |reg| && Match(reg[r.value].name, query)
    ensures r.Some? ==> forall j :: 0 <= j < r.value ==> !Match(reg[j].name, query)
    ensures r.None? ==> forall j :: 0 <= j < |reg| ==> !Match(reg[j].name, query)
  {
    FindFrom(reg, query, 0)
  }

  datatype Status = Ok | Exists | Invalid | Diverges

  /** es_control_register_namespace. */
  function RegisterNamespace(reg: Registry, name: seq<byte>, hasOut: bool): (Registry, Status) {
    if !hasOut then (reg, Invalid)
    else if Resolve(reg, name).Some? then (reg, Exists)
    else (reg + [Entry(Strncpy(name), [])], Ok)
  }

  /** es_control_register_command. The do-while of the source assigns the list head at
      the top of every iteration, so its first iteration decides its outcome. */
  function RegisterCommand(reg: Registry, ns: Option<nat>, id: byte, handler: nat): (Registry, Status)
    requires ns.Some? ==> ns.value < |reg|
  {
    if ns.None? || ns.value == 0 then (reg, Invalid)
    else
      var commands := reg[ns.value].commands;
      if commands == [] || (|commands| == 1 && commands[0].id != id) then
        (reg[ns.value := reg[ns.value].(commands := commands + [Command(id, handler)])], Ok)
      else if commands[0].id == id then (reg, Exists)
      else (reg, Diverges)
  }

  /** What the comment in the source describes: walk the whole list, refuse a duplicate
      anywhere in it, append otherwise. */
  function RegisterCommandIntended(reg: Registry, ns: Option<nat>, id: byte, handler: nat): (Registry, Status)
    requires ns.Some? ==> ns.value < |reg|
  {
    if ns.None? || ns.value == 0 then (reg, Invalid)
    else
      var commands := reg[ns.value].commands;
      if exists k :: 0 <= k < |commands| && commands[k].id == id then (reg, Exists)
      else (reg[ns.value := reg[ns.value].(commands := commands + [Command(id, handler)])], Ok)
  }

  /** The walk as coded meets the documented walk exactly when there are fewer than two
      commands or the head of the list has the requested ID. */
  lemma RegisterCommandMeetsIntent(reg: Registry, ns: nat, id: byte, handler: nat)
    requires 0 < ns < |reg|
    ensures RegisterCommand(reg, Some(ns), id, handler) == RegisterCommandIntended(reg, Some(ns), id, handler)
       <==> |reg[ns].commands| < 2 || reg[ns].commands[0].id == id
  {
    var commands := reg[ns].commands;
    if commands != [] && commands[0].id == id {
      assert exists k :: 0 <= k < |commands| && commands[k].id == id;
    }
  }

  // --- Sequences of registrations ------------------------------------------------

  datatype Request =
    | AddNamespace(name: seq<byte>, hasOut: bool)
    | AddCommand(ns: Option<nat>, id: byte, handler: nat)

  /** A caller can only name a namespace it was given, and lengths are uint8_t. */
  predicate Callable(reg: Registry, r: Request) {
    match r
    case AddNamespace(name, _) => |name| < 256
    case AddCommand(ns, _, _) => ns.Some? ==> ns.value < |reg|
  }

  function Perform(reg: Registry, r: Request): Registry
    requires Callable(reg, r)
  {
    match r
    case AddNamespace(name, hasOut) => RegisterNamespace(reg, name, hasOut).0
    case AddCommand(ns, id, handler) => RegisterCommand(reg, ns, id, handler).0
  }

  predicate AllCallable(reg: Registry, rs: seq<Request>)
    decreases |rs|
  {
    rs == [] || (Callable(reg, rs[0]) && AllCallable(Perform(reg, rs[0]), rs[1..]))
  }

  function PerformAll(reg: Registry, rs: seq<Request>): Registry
    requires AllCallable(reg, rs)
    decreases |rs|
  {
    if rs == [] then reg else PerformAll(Perform(reg, rs[0]), rs[1..])
  }

  lemma {:induction false} PerformAllSnoc(reg: Registry, rs: seq<Request>, r: Request)
    requires AllCallable(reg, rs) && Callable(PerformAll(reg, rs), r)
    ensures AllCallable(reg, rs + [r]) && PerformAll(reg, rs + [r]) == Perform(PerformAll(reg, rs), r)
    decreases |rs|
  {
    var all := rs + [r];
    if rs == [] {
      assert all == [r] && all[1..] == [];
    } else {
      assert all[0] == rs[0] && all[1..] == rs[1..] + [r];
      PerformAllSnoc(Perform(reg, rs[0]), rs[1..], r);
    }
  }

  /** No entry's name is a prefix of another's (as far as strncmp can see). */
  ghost predicate PrefixFree(reg: Registry) {
    forall i, j :: 0 <= i < j < |reg| ==> !Match(reg[i].name, reg[j].name)
  }

  predicate AtMostTwo(commands: seq<Command>) {
    |commands| <= 2 && (|commands| == 2 ==> commands[0].id != commands[1].id)
  }

  /** What every sequence of registrations keeps. */
  ghost predicate WellFormed(reg: Registry) {
    && |reg| > 0 && reg[0] == BUILTIN
    && PrefixFree(reg)
    && (forall i :: 0 <= i < |reg| ==> 0 < |reg[i].name| < 256)
    && (forall i :: 0 < i < |reg| ==> AtMostTwo(reg[i].commands))
  }

  /** reg' extends reg: same names at the same places, command lists only extended. */
  ghost predicate Extends(reg: Registry, reg': Registry) {
    && |reg| <= |reg'|
    && forall i :: 0 <= i < |reg| ==> reg'[i].name == reg[i].name && reg[i].commands <= reg'[i].commands
  }

  lemma PerformKeeps(reg: Registry, r: Request)
    requires WellFormed(reg) && Callable(reg, r)
    ensures WellFormed(Perform(reg, r)) && Extends(reg, Perform(reg, r))
  {
    match r
    case AddNamespace(name, hasOut) =>
      if hasOut && Resolve(reg, name).None? {
        NewNamespaceKeeps(reg, name);
      }
    case AddCommand(ns, id, handler) =>
      var reg' := Perform(reg, r);
      assert |reg'| == |reg| && forall i :: 0 <= i < |reg| ==> reg'[i].name == reg[i].name;
  }

  /** A name that nothing in the registry matches can be added. */
  lemma {:induction false} NewNamespaceKeeps(reg: Registry, name: seq<byte>)
    requires WellFormed(reg) && |name| < 256 && Resolve(reg, name).None?
    ensures WellFormed(reg + [Entry(Strncpy(name), [])])
  {
    assert Match(reg[0].name, []);
    forall i | 0 <= i < |reg|
      ensures !Match(reg[i].name, Strncpy(name))
    {
      MatchOfCopy(reg[i].name, name);
    }
    AppendKeeps(reg, Entry(Strncpy(name), []));
  }

  lemma AppendKeeps(reg: Registry, entry: Entry)
    requires WellFormed(reg) && 0 < |entry.name| < 256 && entry.commands == []
    requires forall i :: 0 <= i < |reg| ==> !Match(reg[i].name, entry.name)
    ensures WellFormed(reg + [entry])
  {
    var reg' := reg + [entry];
    forall i, j | 0 <= i < j < |reg'|
      ensures !Match(reg'[i].name, reg'[j].name)
    {
      assert reg'[i] == reg[i];
    }
  }

  /** Every registry reachable from the builtin one is well formed, and later
      registrations only extend it. */
  lemma {:induction false} ReachableRegistry(reg: Registry, rs: seq<Request>)
    requires WellFormed(reg) && AllCallable(reg, rs)
    ensures WellFormed(PerformAll(reg, rs)) && Extends(reg, PerformAll(reg, rs))
    decreases |rs|
  {
    if rs != [] {
      PerformKeeps(reg, rs[0]);
      var reg' := Perform(reg, rs[0]);
      ReachableRegistry(reg', rs[1..]);
      var last := PerformAll(reg, rs);
      forall i | 0 <= i < |reg|
        ensures last[i].name == reg[i].name && reg[i].commands <= last[i].commands
      {
        assert reg[i].commands <= reg'[i].commands <= last[i].commands;
      }
    }
  }

  lemma BuiltinWellFormed()
    ensures WellFormed([BUILTIN])
  {
  }

  /** A successful lookup is never changed by later registrations. */
  lemma {:induction false} LookupsAreStable(reg: Registry, rs: seq<Request>, query: seq<byte>)
    requires WellFormed(reg) && AllCallable(reg, rs)
    requires Resolve(reg, query).Some?
    ensures Resolve(PerformAll(reg, rs), query) == Resolve(reg, query)
  {
    ReachableRegistry(reg, rs);
    var reg' := PerformAll(reg, rs);
    var i := Resolve(reg, query).value;
    assert reg'[i].name == reg[i].name;
    assert Match(reg'[i].name, query);
    assert forall j :: 0 <= j < i ==> reg'[j].name == reg[j].name;
  }

  /** No registered name is a prefix of another. */
  lemma {:induction false} NamesArePrefixFree(reg: Registry, i: nat, j: nat)
    requires WellFormed(reg) && i < |reg| && j < |reg| && i != j
    ensures !(reg[i].name <= reg[j].name)
  {
    if reg[i].name <= reg[j].name {
      PrefixIsMatch(reg[i].name, reg[j].name);
      MatchSymmetric(reg[i].name, reg[j].name);
      assert false;
    }
  }

  /** Two different entries are never both prefixes of one query. */
  lemma AtMostOnePrefix(reg: Registry, i: nat, j: nat, query: seq<byte>)
    requires WellFormed(reg) && i < j < |reg|
    requires |reg[i].name| <= |query| && |reg[j].name| <= |query|
    ensures !(Match(reg[i].name, query) && Match(reg[j].name, query))
  {
    if Match(reg[i].name, query) && Match(reg[j].name, query) {
      PrefixesMatch(reg[i].name, reg[j].name, query);
      assert false;
    }
  }

  /** Two names that are both prefixes of one query match each other. */
  lemma PrefixesMatch(a: seq<byte>, b: seq<byte>, query: seq<byte>)
    requires |a| <= |query| && |b| <= |query|
    requires Match(a, query) && Match(b, query)
    ensures Match(a, b)
  {
    var n := if |b| < |a| then |b| else |a|;
    StrncmpShorter(query, a, |a|, n);
    StrncmpShorter(query, b, |b|, n);
    StrncmpCommon(b, a, query, n);
  }

  /** A query that starts with a registered name resolves to that name's entry. */
  lemma ResolveByPrefix(reg: Registry, i: nat, query: seq<byte>)
    requires WellFormed(reg) && i < |reg|
    requires |query| == |reg[i].name| && Match(reg[i].name, query)
    ensures Resolve(reg, query) == Some(i)
  {
    var r := Resolve(reg, query);
    assert r.Some?;
    if r.value != i {
      var a, b := reg[r.value].name, reg[i].name;
      var n := if |b| < |a| then |b| else |a|;
      assert StrncmpEq(query, a, n);
      StrncmpShorter(query, b, |b|, n);
      StrncmpCommon(b, a, query, n);
      assert Match(a, b);
    }
  }

  /** The registered spelling of a namespace resolves to its own entry. */
  lemma ResolveOwnName(reg: Registry, i: nat)
    requires WellFormed(reg) && i < |reg|
    ensures Resolve(reg, reg[i].name) == Some(i)
  {
    StrncmpReflexive(reg[i].name, |reg[i].name|);
    ResolveByPrefix(reg, i, reg[i].name);
  }

  /** A name is accepted for registration exactly when no lookup finds it, and from then
      on the name it was registered under finds the new entry. */
  lemma RegisterThenResolve(reg: Registry, name: seq<byte>)
    requires WellFormed(reg) && |name| < 256
    ensures var (reg', status) := RegisterNamespace(reg, name, true);
      && (status == Ok <==> Resolve(reg, name).None?)
      && (status == Ok ==> Resolve(reg', name) == Some(|reg|))
      && (status != Ok ==> reg' == reg)
  {
    var (reg', status) := RegisterNamespace(reg, name, true);
    if status == Ok {
      PerformKeeps(reg, AddNamespace(name, true));
      StrncmpReflexive(name, |name|);
      MatchOfCopy(name, name);
      ResolveByPrefix(reg', |reg|, name);
    }
  }

  /** What a registration adds: the copy of the name, without commands, at the end. */
  lemma {:induction false} RegisterNamespaceAppends(reg: Registry, name: seq<byte>, hasOut: bool)
    ensures var (reg', status) := RegisterNamespace(reg, name, hasOut);
      && reg' == (if status == Ok then reg + [Entry(Strncpy(name), [])] else reg)
      && (status == Invalid <==> !hasOut)
      && (status == Exists <==> hasOut && exists i :: 0 <= i < |reg| && Match(reg[i].name, name))
      && status != Diverges
  {
  }

  /** A run of legal registrations after which one more does not end: the third command of a
      namespace. */
  lemma {:induction false} ThirdCommandDiverges(handler: nat) returns (rs: seq<Request>)
    ensures AllCallable([BUILTIN], rs)
    ensures PerformAll([BUILTIN], rs) == [BUILTIN, Entry([0x78], [Command(1, handler), Command(2, handler)])]
    ensures RegisterCommand(PerformAll([BUILTIN], rs), Some(1), 3, handler).1 == Diverges
  {
    var first, second := Command(1, handler), Command(2, handler);
    var named, one := [BUILTIN, Entry([0x78], [])], [BUILTIN, Entry([0x78], [first])];
    var two := [BUILTIN, Entry([0x78], [first, second])];
    assert [first] + [second] == [first, second];
    assert Perform(one, AddCommand(Some(1), 2, handler)) == two;
    rs := PerformedBefore(one, AddCommand(Some(1), 2, handler), two, []);
    assert [] + [first] == [first];
    assert Perform(named, AddCommand(Some(1), 1, handler)) == one;
    rs := PerformedBefore(named, AddCommand(Some(1), 1, handler), one, rs);
    assert !Match(BUILTIN_NAME, [0x78]);
    assert Strncpy([0x78]) == [0x78] && Resolve([BUILTIN], [0x78]).None?;
    assert Perform([BUILTIN], AddNamespace([0x78], true)) == named;
    rs := PerformedBefore([BUILTIN], AddNamespace([0x78], true), named, rs);
  }

  lemma {:induction false} PerformedBefore(reg: Registry, r: Request, reg': Registry, later: seq<Request>)
    returns (rs: seq<Request>)
    requires Callable(reg, r) && Perform(reg, r) == reg' && AllCallable(reg', later)
    ensures AllCallable(reg, rs) && PerformAll(reg, rs) == PerformAll(reg', later)
  {
    rs := [r] + later;
    assert rs[1..] == later;
  }

  /** Names are compared only over the shorter length, so "e" finds "eventlog-socket"
      and cannot itself be registered. */
  lemma ShortNameFindsBuiltin(reg: Registry)
    requires WellFormed(reg)
    ensures Resolve(reg, [0x65]) == Some(0)
    ensures RegisterNamespace(reg, [0x65], true).1 == Exists
  {
    assert Match(reg[0].name, [0x65]) by {
      MatchZeroFree(reg[0].name, [0x65]);
      assert [0x65] <= reg[0].name;
    }
  }

  /** A query finds its entry under the registered name, or under a shorter or a longer
      spelling of it, as far as strncpy copies them; it is the registered name if and only
      if the lengths agree. */
  lemma {:induction false} ResolveIsExactOnlyByLength(reg: Registry, query: seq<byte>)
    requires Resolve(reg, query).Some?
    ensures var name := reg[Resolve(reg, query).value].name;
      && (Strncpy(name) <= Strncpy(query) || Strncpy(query) <= Strncpy(name))
      && (Strncpy(name) == Strncpy(query) <==> |name| == |query|)
  {
    MatchIsPrefixComparability(reg[Resolve(reg, query).value].name, query);
  }

  // --- Handlers -------------------------------------------------------------------

  function FindCommand(commands: seq<Command>, id: byte): (r: Option<nat>)
    ensures r.Some? ==> Command(id, r.value) in commands
    ensures r.None? ==> forall c :: c in commands ==> c.id != id
  {
    if commands == [] then None
    else if commands[0].id == id then Some(commands[0].handler)
    else FindCommand(commands[1..], id)
  }

  lemma {:induction false} FindCommandExtended(a: seq<Command>, b: seq<Command>, id: byte)
    requires a <= b && FindCommand(a, id).Some?
    ensures FindCommand(b, id) == FindCommand(a, id)
  {
    if a[0].id != id {
      FindCommandExtended(a[1..], b[1..], id);
    }
  }

  /** The handler that es_control_command_handle calls for a command. */
  function Handler(reg: Registry, ns: nat, id: byte): Option<nat>
    requires ns < |reg|
  {
    FindCommand(reg[ns].commands, id)
  }

  /** When the registration of a command has which status, and what it changes: from then on
      the command has its handler, and nothing else changes. */
  lemma {:induction false} RegisterCommandThenHandler(reg: Registry, ns: Option<nat>, id: byte, handler: nat)
    requires ns.Some? ==> ns.value < |reg|
    ensures var (reg', status) := RegisterCommand(reg, ns, id, handler);
      && (status == Invalid <==> ns == None || ns == Some(0))
      && (status == Ok <==>
            ns.Some? && ns.value > 0 && |reg[ns.value].commands| < 2 && Handler(reg, ns.value, id).None?)
      && (status == Exists <==>
            ns.Some? && ns.value > 0 && reg[ns.value].commands != [] && reg[ns.value].commands[0].id == id)
      && (status != Ok ==> reg' == reg)
      && (status == Ok ==>
            && |reg'| == |reg| && Handler(reg', ns.value, id) == Some(handler)
            && forall i, other :: 0 <= i < |reg| && (i != ns.value || other != id) ==>
                 Handler(reg', i, other) == Handler(reg, i, other))
  {
    if ns.Some? && ns.value > 0 {
      var commands := reg[ns.value].commands;
      if commands == [] || (|commands| == 1 && commands[0].id != id) {
        FindCommandSnoc(commands, Command(id, handler));
      }
    }
  }

  lemma {:induction false} FindCommandSnoc(commands: seq<Command>, last: Command)
    requires |commands| < 2 && FindCommand(commands, last.id).None?
    ensures FindCommand(commands + [last], last.id) == Some(last.handler)
    ensures forall id :: id != last.id ==> FindCommand(commands + [last], id) == FindCommand(commands, id)
  {
    if commands == [] {
      assert ([last])[1..] == [];
      assert [] + [last] == [last];
    } else {
      assert (commands + [last])[1..] == [last] && commands[1..] == [] && [last][1..] == [];
    }
  }

  /** A command that has a handler keeps that handler under later registrations. */
  lemma {:induction false} HandlersAreStable(reg: Registry, rs: seq<Request>, ns: nat, id: byte)
    requires WellFormed(reg) && AllCallable(reg, rs) && ns < |reg|
    requires Handler(reg, ns, id).Some?
    ensures ns < |PerformAll(reg, rs)| && Handler(PerformAll(reg, rs), ns, id) == Handler(reg, ns, id)
  {
    ReachableRegistry(reg, rs);
    FindCommandExtended(reg[ns].commands, PerformAll(reg, rs)[ns].commands, id);
  }
}
