/** Resolving `-U` flags out of a compiler's macro flags. */
module Flags {

  /** `-D<definition>` or `-U<name>`. */
  datatype Flag = Define(definition: string) | Undefine(name: string)

  /** The part before the first `=`. */
  function MacroName(definition: string): string {
    if definition == "" || definition[0] == '=' then ""
    else [definition[0]] + MacroName(definition[1..])
  }

  /** The replacement: what follows the first `=`, or 1 when there is none. */
  function Body(definition: string): string {
    var name := MacroName(definition);
    if |name| < |definition| then definition[|name| + 1..] else "1"
  }

  /** A name without `=` and a replacement, which may hold more of them, are told apart again; a name
      alone is defined as 1. */
  lemma {:induction false} DefinedAs(name: string, body: string)
    requires '=' !in name
    ensures MacroName(name + "=" + body) == name && Body(name + "=" + body) == body
    ensures MacroName(name) == name && Body(name) == "1"
  {
    var definition := name + "=" + body;
    if name != "" {
      assert definition[1..] == name[1..] + "=" + body;
      DefinedAs(name[1..], body);
    }
    assert MacroName(definition) == name;
    assert definition[|name| + 1..] == body;
  }

  function Without(flags: seq<Flag>, name: string): seq<Flag> {
    if flags == [] then []
    else
      var last := flags[|flags| - 1];
      var rest := Without(flags[..|flags| - 1], name);
      if last.Define? && MacroName(last.definition) == name then rest else rest + [last]
  }

  /** The fold over the flags from left to right. */
  function Resolve(flags: seq<Flag>): seq<Flag> {
    if flags == [] then []
    else
      var last := flags[|flags| - 1];
      var resolved := Resolve(flags[..|flags| - 1]);
      if last.Undefine? then Without(resolved, last.name) else resolved + [last]
  }

  type Macros = map<string, string>

  /** What a compiler that starts with the macros `m` has defined after the flags: the last definition
      of a name wins and `-U` removes it. */
  function Evaluate(m: Macros, flags: seq<Flag>): Macros {
    if flags == [] then m
    else
      var last := flags[|flags| - 1];
      var before := Evaluate(m, flags[..|flags| - 1]);
      if last.Undefine? then before - {last.name} else before[MacroName(last.definition) := Body(last.definition)]
  }

  predicate Concerns(flag: Flag, name: string) {
    if flag.Undefine? then flag.name == name else MacroName(flag.definition) == name
  }

  /** The last flag about the name undefines it. */
  predicate Cancelled(flags: seq<Flag>, name: string) {
    if flags == [] then false
    else if Concerns(flags[|flags| - 1], name) then flags[|flags| - 1].Undefine?
    else Cancelled(flags[..|flags| - 1], name)
  }

  ghost predicate OnlyDefines(flags: seq<Flag>) {
    forall f <- flags :: f.Define?
  }

  datatype Lookup = Missing | Found(body: string)

  function Find(m: Macros, name: string): Lookup {
    if name in m then Found(m[name]) else Missing
  }

  lemma {:induction false} WithoutOnlyDefines(flags: seq<Flag>, name: string)
    requires OnlyDefines(flags)
    ensures OnlyDefines(Without(flags, name))
  {
    if flags != [] {
      WithoutOnlyDefines(flags[..|flags| - 1], name);
    }
  }

  /** The resolved list undefines nothing. */
  lemma {:induction false} ResolvedOnlyDefines(flags: seq<Flag>)
    ensures OnlyDefines(Resolve(flags))
  {
    if flags != [] {
      ResolvedOnlyDefines(flags[..|flags| - 1]);
      if flags[|flags| - 1].Undefine? {
        WithoutOnlyDefines(Resolve(flags[..|flags| - 1]), flags[|flags| - 1].name);
      }
    }
  }

  lemma FindAfterDefine(m: Macros, before: seq<Flag>, d: string, name: string)
    ensures Find(Evaluate(m, before + [Define(d)]), name)
         == if name == MacroName(d) then Found(Body(d)) else Find(Evaluate(m, before), name)
  {
    hide MacroName, Body;
    assert (before + [Define(d)])[..|before|] == before;
  }

  /** Dropping the definitions of a name gives it back the meaning it started with. */
  lemma {:induction false} EvaluateWithout(m: Macros, flags: seq<Flag>, dropped: string, name: string)
    requires OnlyDefines(flags)
    ensures Find(Evaluate(m, Without(flags, dropped)), name)
         == if name == dropped then Find(m, name) else Find(Evaluate(m, flags), name)
  {
    hide MacroName, Body, Find;
    if flags != [] {
      hide Evaluate;
      var before, d := flags[..|flags| - 1], flags[|flags| - 1].definition;
      assert flags == before + [Define(d)];
      EvaluateWithout(m, before, dropped, name);
      FindAfterDefine(m, before, d, name);
      FindAfterDefine(m, Without(before, dropped), d, name);
    }
  }

  lemma {:induction false} CancelledIsMissing(m: Macros, flags: seq<Flag>, name: string)
    ensures Cancelled(flags, name) ==> name !in Evaluate(m, flags)
  {
    if flags != [] {
      CancelledIsMissing(m, flags[..|flags| - 1], name);
    }
  }

  /** What the resolved list defines: the same as the given one, except that a name whose last flag
      undefines it is as the compiler had it to begin with. */
  lemma {:induction false} ResolvedLookup(m: Macros, flags: seq<Flag>, name: string)
    ensures Find(Evaluate(m, Resolve(flags)), name)
         == if Cancelled(flags, name) then Find(m, name) else Find(Evaluate(m, flags), name)
  {
    if flags != [] {
      var before, last := flags[..|flags| - 1], flags[|flags| - 1];
      var resolved := Resolve(before);
      ResolvedLookup(m, before, name);
      if last.Undefine? {
        ResolvedOnlyDefines(before);
        EvaluateWithout(m, resolved, last.name, name);
      } else {
        FindAfterDefine(m, resolved, last.definition, name);
      }
    }
  }

  /** Resolving preserves the macros of a compiler that starts with `m` exactly when no macro of `m` is
      cancelled by the flags. */
  lemma ResolvePreservesExactly(m: Macros, flags: seq<Flag>)
    ensures Evaluate(m, Resolve(flags)) == Evaluate(m, flags) <==> forall name <- m :: !Cancelled(flags, name)
  {
    var before, after := Evaluate(m, flags), Evaluate(m, Resolve(flags));
    forall name ensures Find(after, name) == if Cancelled(flags, name) then Find(m, name) else Find(before, name) {
      ResolvedLookup(m, flags, name);
    }
    forall name ensures Cancelled(flags, name) ==> Find(before, name) == Missing {
      CancelledIsMissing(m, flags, name);
    }
    if forall name <- m :: !Cancelled(flags, name) {
      forall name ensures Find(after, name) == Find(before, name) {
      }
      SameMacros(after, before);
    } else {
      var name :| name in m && Cancelled(flags, name);
      assert Find(after, name) != Find(before, name);
    }
  }

  lemma SameMacros(a: Macros, b: Macros)
    requires forall name :: Find(a, name) == Find(b, name)
    ensures a == b
  {
    forall name ensures name in a <==> name in b {
      assert Find(a, name) == Find(b, name);
    }
    forall name | name in a ensures a[name] == b[name] {
      assert Find(a, name) == Find(b, name);
    }
  }

  /** A compiler that starts without macros ends with the same ones. */
  lemma ResolvePreserves(flags: seq<Flag>)
    ensures Evaluate(map[], Resolve(flags)) == Evaluate(map[], flags)
  {
    ResolvePreservesExactly(map[], flags);
  }

  /** A definition that no later flag undefines. */
  ghost predicate Stands(flags: seq<Flag>, f: Flag) {
    f.Define? && exists i | 0 <= i < |flags| :: flags[i] == f && Undefine(MacroName(f.definition)) !in flags[i..]
  }

  lemma StandsAfter(before: seq<Flag>, last: Flag, f: Flag)
    ensures Stands(before + [last], f) <==>
            f.Define? && last != Undefine(MacroName(f.definition)) && (last == f || Stands(before, f))
  {
    if f.Define? {
      var flags, n, u := before + [last], |before|, Undefine(MacroName(f.definition));
      assert flags[n..] == [last];
      if Stands(flags, f) {
        var i :| 0 <= i <= n && flags[i] == f && u !in flags[i..];
        assert i == n || flags[i..] == before[i..] + [last];
        assert last in flags[i..];
      }
      if last != u && last == f {
        assert flags[n] == f;
      } else if last != u && Stands(before, f) {
        var i :| 0 <= i < n && before[i] == f && u !in before[i..];
        assert flags[i] == f && flags[i..] == before[i..] + [last];
      }
    }
  }

  /** Which definitions stay: those of names that no later flag undefines.  An earlier definition of a
      name that is defined again stays too. */
  lemma {:induction false} ResolveKeeps(flags: seq<Flag>, f: Flag)
    ensures f in Resolve(flags) <==> Stands(flags, f)
  {
    hide Stands, MacroName;
    if flags == [] {
      NothingStands(f);
    } else {
      var n := |flags| - 1;
      var before, last := flags[..n], flags[n];
      assert flags == before + [last];
      ResolveKeeps(before, f);
      ResolvedOnlyDefines(before);
      StandsAfter(before, last, f);
      StandsIsDefine(before, f);
      if last.Undefine? {
        WithoutElements(Resolve(before), last.name, f);
      }
    }
  }

  lemma NothingStands(f: Flag)
    ensures !Stands([], f)
  {
  }

  lemma StandsIsDefine(flags: seq<Flag>, f: Flag)
    ensures Stands(flags, f) ==> f.Define?
  {
  }

  lemma {:induction false} WithoutElements(flags: seq<Flag>, name: string, f: Flag)
    requires OnlyDefines(flags)
    ensures f in Without(flags, name) <==> f in flags && MacroName(f.definition) != name
  {
    if flags != [] {
      WithoutElements(flags[..|flags| - 1], name, f);
      assert flags == flags[..|flags| - 1] + [flags[|flags| - 1]];
    }
  }

  // ---------- Effective definitions ----------

  /** The definition is what its name means after all flags. */
  predicate Effective(flags: seq<Flag>, f: Flag) {
    f.Define? && Find(Evaluate(map[], flags), MacroName(f.definition)) == Found(Body(f.definition))
  }

  /** A standing definition of a name. */
  ghost predicate StandsFor(flags: seq<Flag>, f: Flag, name: string) {
    Stands(flags, f) && MacroName(f.definition) == name
  }

  lemma StandsForAfter(before: seq<Flag>, last: Flag, f: Flag, name: string)
    ensures StandsFor(before + [last], f, name) <==>
            last != Undefine(name) && ((last == f && f.Define? && MacroName(f.definition) == name)
                                       || StandsFor(before, f, name))
  {
    StandsAfter(before, last, f);
  }

  /** After all flags a name means the body of one of its standing definitions, or nothing if it has none. */
  lemma {:induction false} MeansStanding(flags: seq<Flag>, name: string)
    ensures var found := Find(Evaluate(map[], flags), name);
            if found.Missing? then forall f :: !StandsFor(flags, f, name)
            else exists f :: StandsFor(flags, f, name) && Body(f.definition) == found.body
  {
    hide MacroName, Body, StandsFor;
    if flags == [] {
      forall f ensures !StandsFor([], f, name) {
        NothingStandsFor(f, name);
      }
    } else {
      var before, last := flags[..|flags| - 1], flags[|flags| - 1];
      assert flags == before + [last];
      MeansStanding(before, name);
      forall f
        ensures StandsFor(flags, f, name) <==>
                last != Undefine(name) && ((last == f && f.Define? && MacroName(f.definition) == name)
                                           || StandsFor(before, f, name))
      {
        StandsForAfter(before, last, f, name);
      }
      if last.Define? && MacroName(last.definition) == name {
        assert StandsFor(flags, last, name);
      }
    }
  }

  lemma NothingStandsFor(f: Flag, name: string)
    ensures !StandsFor([], f, name)
  {
  }

  /** Standing definitions of one name have one body. */
  ghost predicate OneBodyEach(flags: seq<Flag>) {
    forall f, g | Stands(flags, f) && Stands(flags, g) && MacroName(f.definition) == MacroName(g.definition) ::
      Body(f.definition) == Body(g.definition)
  }

  /** The resolved list keeps only effective definitions if and only if no name has two standing
      definitions with different bodies. */
  lemma EffectiveExactly(flags: seq<Flag>)
    ensures (forall f <- Resolve(flags) :: Effective(flags, f)) <==> OneBodyEach(flags)
  {
    hide MacroName, Body, Evaluate, Resolve, Stands;
    forall f ensures f in Resolve(flags) <==> Stands(flags, f) {
      ResolveKeeps(flags, f);
    }
    if OneBodyEach(flags) {
      forall f <- Resolve(flags) ensures Effective(flags, f) {
        StandsIsDefine(flags, f);
        MeansStanding(flags, MacroName(f.definition));
        assert StandsFor(flags, f, MacroName(f.definition));
      }
    }
    if forall f <- Resolve(flags) :: Effective(flags, f) {
      forall f, g | Stands(flags, f) && Stands(flags, g) && MacroName(f.definition) == MacroName(g.definition)
        ensures Body(f.definition) == Body(g.definition)
      {
        assert Effective(flags, f) && Effective(flags, g);
      }
    }
  }

  /** Defining A as 1 and then as 2 leaves the first definition in the list, without effect. */
  lemma RedefinitionStays()
    ensures var flags := [Define("A=1"), Define("A=2")];
            flags[0] in Resolve(flags) && !Effective(flags, flags[0])
  {
    var first, second := Define("A=1"), Define("A=2");
    var flags := [first, second];
    DefinedAs("A", "1");
    DefinedAs("A", "2");
    hide MacroName, Body;
    assert "A" + "=" + "1" == "A=1" && "A" + "=" + "2" == "A=2";
    assert flags == [] + [first] + [second];
    StandsAfter([], first, first);
    StandsAfter([first], second, first);
    assert [] + [first] == [first] && [first] + [second] == flags;
    ResolveKeeps(flags, first);
    FindAfterDefine(map[], [first], "A=2", "A");
  }
}
