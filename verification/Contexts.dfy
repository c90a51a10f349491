/** The pool of contexts, and the plugins that fill it. */
module Contexts {
  import opened Bytes
  import opened Text
  import opened Split

  const MAX_CONTEXTS: nat := 50
  const MAX_NUM_PLUGINS: nat := 10

  /**
   * What the code calls through a plugin: `query` gets the parameters of a URI and their count (or -1), and `getSize`
   * is asked afterwards.
   */
  datatype Plugin = Plugin(longname: seq<byte>, hasCtor: bool, hasPread: bool, exportWithoutHandle: bool,
                           query: Option<(seq<Pair>, int) -> int>, getSize: seq<Pair> -> int) {
    /** Its long name fits the description of a context. */
    predicate Fits() {
      NoZero(longname) && |longname| < 64
    }
  }

  datatype Context = Context(name: seq<byte>, description: seq<byte>, plugin: Option<Plugin>, exportsize: int) {
    /** Its strings are C strings that fit their arrays of 32 and 64 bytes. */
    predicate Fits() {
      NoZero(name) && |name| < 32 && NoZero(description) && |description| < 64
    }
  }

  ghost predicate AllFit(cs: seq<Context>) {
    forall k :: 0 <= k < |cs| ==> cs[k].Fits()
  }

  const Blank := Context([], [], None, 0)

  // ---------- Names ----------

  /** strncmp(a, b, n) == 0, on strings without their terminators. */
  function SameUpTo(a: seq<byte>, b: seq<byte>, n: nat): bool {
    n == 0 || (a == [] && b == []) || (a != [] && b != [] && a[0] == b[0] && SameUpTo(a[1..], b[1..], n - 1))
  }

  /** A name that fits is compared in full. */
  lemma {:induction false} SameUpToIff(a: seq<byte>, b: seq<byte>, n: nat)
    requires |a| < n
    ensures SameUpTo(a, b, n) <==> a == b
  {
    if a != [] && b != [] && a[0] == b[0] {
      SameUpToIff(a[1..], b[1..], n - 1);
      assert a == [a[0]] + a[1..] && b == [b[0]] + b[1..];
    }
  }

  /** The first context of that name. */
  function FirstMatch(cs: seq<Context>, name: seq<byte>): (k: Option<nat>)
    ensures k.Some? ==> k.value < |cs|
  {
    if cs == [] then None
    else if cs[0].name == name then Some(0)
    else match FirstMatch(cs[1..], name) case Some(k) => Some(k + 1) case None => None
  }

  ghost predicate Unnamed(cs: seq<Context>, name: seq<byte>) {
    forall k :: 0 <= k < |cs| ==> cs[k].name != name
  }

  lemma {:induction false} FirstMatchIff(cs: seq<Context>, name: seq<byte>, k: nat)
    ensures FirstMatch(cs, name) == Some(k) <==> k < |cs| && cs[k].name == name && Unnamed(cs[..k], name)
    ensures FirstMatch(cs, name) == None <==> Unnamed(cs, name)
    decreases |cs|
  {
    if cs != [] && cs[0].name != name {
      FirstMatchIff(cs[1..], name, if k > 0 then k - 1 else 0);
      UnnamedTail(cs, name);
      if 0 < k <= |cs| {
        UnnamedTail(cs[..k], name);
        assert cs[..k][1..] == cs[1..][..k - 1];
      }
    }
  }

  lemma UnnamedTail(cs: seq<Context>, name: seq<byte>)
    requires cs != []
    ensures Unnamed(cs, name) <==> cs[0].name != name && Unnamed(cs[1..], name)
  {
    assert cs == [cs[0]] + cs[1..];
  }

  /** Whatever is registered later, a name that resolves keeps its context: the first registration wins. */
  lemma {:induction false} LaterRegistrations(cs: seq<Context>, more: seq<Context>, name: seq<byte>)
    ensures FirstMatch(cs + more, name) ==
              match FirstMatch(cs, name) {
                case Some(k) => Some(k)
                case None => match FirstMatch(more, name) { case Some(k) => Some(|cs| + k) case None => None }
              }
    decreases |cs|
  {
    if cs == [] {
      assert cs + more == more;
    } else {
      assert (cs + more)[0] == cs[0] && (cs + more)[1..] == cs[1..] + more;
      LaterRegistrations(cs[1..], more, name);
    }
  }

  // ---------- The pool ----------

  /** A constructor's code, and what it left in the context. */
  datatype Built = Built(code: int, name: seq<byte>, description: seq<byte>, exportsize: int) {
    predicate Fits() {
      NoZero(name) && |name| < 32 && NoZero(description) && |description| < 64
    }
  }

  /**
   * The context a registration leaves: only a successful one has its plugin, and a description of its own or the
   * plugin's.
   */
  function Entry(p: Plugin, b: Built): Context {
    if b.code != 0 then Context(b.name, b.description, None, b.exportsize)
    else Context(b.name, if b.description == [] then p.longname else b.description, Some(p), b.exportsize)
  }

  /** The names of contexts exported without a handle. */
  const Api: seq<byte> := [97, 112, 105]

  class Pool {
    const contexts: array<Context>
    const status: array<bool>  // CONTEXT_CREATED
    const plugins: array<Option<Plugin>>
    ghost var made: nat

    ghost predicate Valid()
      reads this, contexts, status, plugins
    {
      && contexts.Length == status.Length == MAX_CONTEXTS && plugins.Length == MAX_NUM_PLUGINS
      && made <= MAX_CONTEXTS
      && (forall k :: 0 <= k < MAX_CONTEXTS ==> (status[k] <==> k < made))
      && (forall k :: 0 <= k < MAX_CONTEXTS ==> contexts[k].Fits())
      && (forall k :: made <= k < MAX_CONTEXTS ==> contexts[k] == Blank)
      && (forall k :: 0 <= k < MAX_NUM_PLUGINS && plugins[k].Some? ==> plugins[k].value.Fits())
    }

    /** The contexts created so far: the slots have no holes. */
    ghost function Contexts(): (cs: seq<Context>)
      requires Valid()
      reads this, contexts, status, plugins
      ensures |cs| == made && AllFit(cs)
    {
      contexts[..made]
    }

    constructor ()
      ensures Valid() && fresh(contexts) && fresh(status) && fresh(plugins) && Contexts() == []
    {
      contexts := new Context[MAX_CONTEXTS](_ => Blank);
      status := new bool[MAX_CONTEXTS](_ => false);
      plugins := new Option<Plugin>[MAX_NUM_PLUGINS](_ => None);
      made := 0;
    }

    /** lwnbd_new_context: the first free slot, as it lies. */
    method NewContext() returns (r: Option<nat>)
      requires Valid()
      modifies this`made, status
      ensures Valid()
      ensures r == if old(made) == MAX_CONTEXTS then None else Some(old(made))
      ensures Contexts() == old(Contexts()) + if r.Some? then [Blank] else []
    {
      var i := 0;
      while i < MAX_CONTEXTS && status[i]
        invariant i <= made
      {
        i := i + 1;
      }
      if i == MAX_CONTEXTS {
        return None;
      }
      ghost var before := Contexts();
      status[i] := true;
      made := made + 1;
      Appended(before, Blank);
      r := Some(i);
    }

    /** lwnbd_contexts_count */
    method Count() returns (n: nat)
      requires Valid()
      ensures n == made
    {
      n := 0;
      while n < MAX_CONTEXTS && status[n]
        invariant n <= made
      {
        n := n + 1;
      }
    }

    /** lwnbd_get_context_string */
    method Lookup(name: seq<byte>) returns (r: Option<nat>)
      requires Valid()
      ensures r == FirstMatch(Contexts(), name)
    {
      var i := 0;
      var n := Count();
      while i < n
        invariant i <= n == made && Unnamed(Contexts()[..i], name)
      {
        SameUpToIff(contexts[i].name, name, 32);
        if SameUpTo(contexts[i].name, name, 32) {
          FirstMatchIff(Contexts(), name, i);
          return Some(i);
        }
        assert Contexts()[..i + 1] == Contexts()[..i] + [contexts[i]];
        i := i + 1;
        n := Count();
      }
      assert Contexts()[..i] == Contexts();
      FirstMatchIff(Contexts(), name, 0);
      r := None;
    }

    lemma Appended(before: seq<Context>, c: Context)
      requires Valid() && made == |before| + 1 && contexts[..|before|] == before && contexts[|before|] == c
      ensures Contexts() == before + [c]
    {
    }

    /** lwnbd_plugin_new; `nullWrite` if it writes through the null pointer that a full pool gives it. */
    method PluginNew(plugin: nat, built: Built) returns (r: int, nullWrite: bool)
      requires Valid() && plugin < MAX_NUM_PLUGINS && plugins[plugin].Some? && built.Fits()
      modifies this`made, status, contexts
      ensures Valid()
      ensures var p := old(plugins[plugin]).value;
              && (nullWrite <==> p.hasCtor && !p.exportWithoutHandle && old(made) == MAX_CONTEXTS)
              && (!nullWrite ==> r == if !p.hasCtor || built.code != 0 then -1 else 0)
              && Contexts() == old(Contexts())
                               + if !p.hasCtor || p.exportWithoutHandle || nullWrite then [] else [Entry(p, built)]
      ensures made > old(made) ==>
                var p, c := old(plugins[plugin]).value, contexts[old(made)];
                && made == old(made) + 1 && c.name == built.name && c.exportsize == built.exportsize
                && c.plugin == (if built.code == 0 then Some(p) else None)
                && c.description == if built.code == 0 && built.description == [] then p.longname else built.description
    {
      var p := plugins[plugin].value;
      nullWrite := false;
      if !p.hasCtor {
        return -1, false;
      }
      if p.exportWithoutHandle {
        if built.code != 0 {
          return -1, false;
        }
        return 0, false;
      }
      ghost var before := Contexts();
      var c := NewContext();
      if c.None? {
        return -1, true;
      }
      contexts[c.value] := Context(built.name, built.description, contexts[c.value].plugin, built.exportsize);
      if built.code != 0 {
        Appended(before, Entry(p, built));
        return -1, false;
      }
      contexts[c.value] := contexts[c.value].(plugin := Some(p));
      if contexts[c.value].description == [] {
        contexts[c.value] := contexts[c.value].(description := p.longname);
      }
      Appended(before, Entry(p, built));
      r := 0;
    }

    /** lwnbd_plugin_init, where `init` is what the plugin's own function returns; `nullWrite` as above. */
    method PluginInit(init: Option<Plugin>) returns (r: int, nullWrite: bool)
      requires Valid() && (init.Some? ==> init.value.Fits())
      modifies this`made, status, contexts, plugins
      ensures Valid()
      ensures r == -1 <==>
                init.None? || !init.value.hasPread || forall k :: 0 <= k < MAX_NUM_PLUGINS ==> old(plugins[k]).Some?
      ensures nullWrite <==> r != -1 && init.value.exportWithoutHandle && old(made) == MAX_CONTEXTS
      ensures r == -1 ==> Contexts() == old(Contexts()) && plugins[..] == old(plugins[..])
      ensures r != -1 ==>
                && 0 <= r < MAX_NUM_PLUGINS && old(plugins[r]).None?
                && (forall k :: 0 <= k < r ==> old(plugins[k]).Some?)
                && plugins[..] == old(plugins[..])[r := init]
                && Contexts() == old(Contexts()) + if init.value.exportWithoutHandle && !nullWrite
                                                   then [Context(Api, init.value.longname, init, 0)] else []
    {
      var i := 0;
      while i < MAX_NUM_PLUGINS && plugins[i].Some?
        invariant i <= MAX_NUM_PLUGINS && forall k :: 0 <= k < i ==> plugins[k].Some?
      {
        i := i + 1;
      }
      nullWrite := false;
      if i == MAX_NUM_PLUGINS || init.None? || !init.value.hasPread {
        return -1, false;
      }
      var p := init.value;
      plugins[i] := Some(p);
      if p.exportWithoutHandle {
        ghost var before := Contexts();
        var c := NewContext();
        if c.None? {
          return i, true;
        }
        contexts[c.value] := contexts[c.value].(description := p.longname, name := Api, plugin := Some(p));
        Appended(before, Context(Api, p.longname, init, 0));
      }
      r := i;
    }
  }
}
