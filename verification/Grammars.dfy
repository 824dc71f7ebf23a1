/** The flattening of pattern groups (crates/static-syntax/src/grammar.rs): it ends on every repository, cyclic
    ones included, and keeps the choice of rules. Regexes and captures are opaque here. */
module Grammars {
  import opened Outcomes

  type Captures = seq<(nat, Option<string>)>

  datatype Region = Region(begin: string, beginCaptures: Captures, end: string, endCaptures: Captures,
                           contentName: Option<string>, patterns: seq<string>)

  datatype Body = Group(members: seq<string>) | Match(regex: string, captures: Captures) | BeginEnd(region: Region)

  datatype Rule = Rule(name: Option<string>, body: Body)

  type Repository = map<string, Rule>

  predicate IsGroup(repo: Repository, name: string) {
    name in repo && repo[name].body.Group?
  }

  function Members(repo: Repository, name: string): seq<string>
    requires IsGroup(repo, name)
  {
    repo[name].body.members
  }

  /** The groups not yet on the way down. */
  function Fresh(repo: Repository, path: seq<string>): set<string> {
    set name | name in repo && name !in path
  }

  lemma FreshShrinks(repo: Repository, path: seq<string>, name: string)
    requires name in repo && name !in path
    ensures Fresh(repo, path + [name]) < Fresh(repo, path)
  {
    assert name in Fresh(repo, path) && name !in Fresh(repo, path + [name]);
    assert forall n :: n in path ==> n in path + [name];
  }

  /** The depth-first expansion of a pattern list; `path` holds the groups being expanded. */
  function Flattened(repo: Repository, names: seq<string>, path: seq<string>): Result<seq<string>>
    decreases Fresh(repo, path), |names|
  {
    if names == [] then Ok([])
    else
      var front := Flattened(repo, names[..|names| - 1], path);
      var last := Expanded(repo, names[|names| - 1], path);
      if front.Err? || last.Err? then Err else Ok(front.value + last.value)
  }

  /** One entry: a group gives its members, any other rule itself. */
  function Expanded(repo: Repository, name: string, path: seq<string>): Result<seq<string>>
    decreases Fresh(repo, path), 0
  {
    if name !in repo then Err
    else if !IsGroup(repo, name) then Ok([name])
    else if name in path then Err
    else
      FreshShrinks(repo, path, name);
      Flattened(repo, Members(repo, name), path + [name])
  }

  /** `flatten_list`; the stack is pushed before a group's members and popped after them. */
  method FlattenList(repo: Repository, names: seq<string>, stack: seq<string>)
    returns (r: Result<seq<string>>, after: seq<string>)
    ensures r == Flattened(repo, names, stack)
    ensures r.Ok? ==> after == stack
    decreases Fresh(repo, stack)
  {
    var flat: seq<string> := [];
    after := stack;
    for i := 0 to |names|
      invariant after == stack && Flattened(repo, names[..i], stack) == Ok(flat)
    {
      var name := names[i];
      assert names[..i + 1][..i] == names[..i];
      if name !in repo {
        FailsEarly(repo, names, i + 1, stack);
        return Err, after;
      }
      if repo[name].body.Group? {
        if name in after {
          FailsEarly(repo, names, i + 1, stack);
          return Err, after;
        }
        FreshShrinks(repo, stack, name);
        var inner: Result<seq<string>>;
        inner, after := FlattenList(repo, repo[name].body.members, after + [name]);
        if inner.Err? {
          FailsEarly(repo, names, i + 1, stack);
          return Err, after;
        }
        flat := flat + inner.value;
        after := after[..|after| - 1];
      } else {
        flat := flat + [name];
      }
    }
    assert names[..|names|] == names;
    return Ok(flat), after;
  }

  lemma {:induction false} FailsEarly(repo: Repository, names: seq<string>, i: nat, path: seq<string>)
    requires i <= |names| && Flattened(repo, names[..i], path).Err?
    ensures Flattened(repo, names, path).Err?
    decreases |names|
  {
    if i < |names| {
      var front := names[..|names| - 1];
      assert front[..i] == names[..i];
      FailsEarly(repo, front, i, path);
    } else {
      assert names[..i] == names;
    }
  }

  // ----- when it fails -----------------------------------------------------------------------

  /** Each name on the way is a group that lists the next one. */
  ghost predicate GroupPath(repo: Repository, p: seq<string>) {
    p != [] && forall i :: 0 <= i < |p| - 1 ==> IsGroup(repo, p[i]) && p[i + 1] in Members(repo, p[i])
  }

  /** The way ends at a name that does not resolve, or at a group met before. */
  ghost predicate DeadEnd(repo: Repository, p: seq<string>, path: seq<string>) {
    && GroupPath(repo, p)
    && var last := p[|p| - 1];
       last !in repo || (IsGroup(repo, last) && (last in path || last in p[..|p| - 1]))
  }

  lemma PathTail(repo: Repository, p: seq<string>)
    requires GroupPath(repo, p) && |p| > 1
    ensures GroupPath(repo, p[1..]) && IsGroup(repo, p[0]) && p[1] in Members(repo, p[0])
  {
    forall i | 0 <= i < |p[1..]| - 1
      ensures IsGroup(repo, p[1..][i]) && p[1..][i + 1] in Members(repo, p[1..][i])
    {
      assert IsGroup(repo, p[i + 1]) && p[i + 1 + 1] in Members(repo, p[i + 1]);
    }
  }

  lemma PathCons(repo: Repository, name: string, p: seq<string>)
    requires GroupPath(repo, p) && IsGroup(repo, name) && p[0] in Members(repo, name)
    ensures GroupPath(repo, [name] + p)
  {
    var q := [name] + p;
    forall i | 0 <= i < |q| - 1
      ensures IsGroup(repo, q[i]) && q[i + 1] in Members(repo, q[i])
    {
      if i > 0 {
        assert q[i] == p[i - 1] && q[i + 1] == p[i - 1 + 1];
      }
    }
  }

  lemma {:induction false} DeadEndFails(repo: Repository, names: seq<string>, path: seq<string>, p: seq<string>)
    requires DeadEnd(repo, p, path) && p[0] in names
    ensures Flattened(repo, names, path).Err?
    decreases |p|
  {
    var i :| 0 <= i < |names| && names[i] == p[0];
    if |p| > 1 {
      PathTail(repo, p);
      if p[0] !in path {
        DeadEndTail(repo, p, path);
        DeadEndFails(repo, Members(repo, p[0]), path + [p[0]], p[1..]);
      }
    }
    assert Expanded(repo, p[0], path).Err?;
    assert names[..i + 1][..i] == names[..i] && names[..i + 1][i] == p[0];
    FailsEarly(repo, names, i + 1, path);
  }

  lemma DeadEndTail(repo: Repository, p: seq<string>, path: seq<string>)
    requires DeadEnd(repo, p, path) && |p| > 1
    ensures DeadEnd(repo, p[1..], path + [p[0]])
  {
    PathTail(repo, p);
    var last := p[|p| - 1];
    assert p[1..][|p[1..]| - 1] == last;
    if last in p[..|p| - 1] {
      var i :| 0 <= i < |p| - 1 && p[i] == last;
      assert i > 0 ==> p[1..][..|p[1..]| - 1][i - 1] == last;
    }
  }

  lemma {:induction false} FailsAtDeadEnd(repo: Repository, names: seq<string>, path: seq<string>)
    returns (p: seq<string>)
    requires Flattened(repo, names, path).Err?
    ensures DeadEnd(repo, p, path) && p[0] in names
    decreases Fresh(repo, path), |names|
  {
    var front, last := names[..|names| - 1], names[|names| - 1];
    if Flattened(repo, front, path).Err? {
      p := FailsAtDeadEnd(repo, front, path);
    } else if last !in repo || last in path {
      p := [last];
    } else {
      FreshShrinks(repo, path, last);
      var q := FailsAtDeadEnd(repo, Members(repo, last), path + [last]);
      PathCons(repo, last, q);
      p := [last] + q;
      DeadEndCons(repo, last, q, path);
    }
  }

  lemma DeadEndCons(repo: Repository, name: string, q: seq<string>, path: seq<string>)
    requires DeadEnd(repo, q, path + [name]) && GroupPath(repo, [name] + q)
    ensures DeadEnd(repo, [name] + q, path)
  {
    var p := [name] + q;
    var last := q[|q| - 1];
    assert p[|p| - 1] == last;
    assert p[..|p| - 1] == [name] + q[..|q| - 1];
  }

  /** Flattening fails exactly when some name reachable through groups does not resolve, or is a group that the
      same way has met before. */
  lemma FailsExactly(repo: Repository, names: seq<string>)
    ensures Flattened(repo, names, []).Err? <==> exists p :: DeadEnd(repo, p, []) && p[0] in names
  {
    if Flattened(repo, names, []).Err? {
      var p := FailsAtDeadEnd(repo, names, []);
    } else {
      forall p | DeadEnd(repo, p, []) && p[0] in names
        ensures false
      {
        DeadEndFails(repo, names, [], p);
      }
    }
  }

  // ----- what it keeps -----------------------------------------------------------------------

  predicate Flat(repo: Repository, names: seq<string>) {
    forall i :: 0 <= i < |names| ==> names[i] in repo && !IsGroup(repo, names[i])
  }

  /** No group is left, and every name resolves. */
  lemma {:induction false} NoGroupLeft(repo: Repository, names: seq<string>, path: seq<string>)
    requires Flattened(repo, names, path).Ok?
    ensures Flat(repo, Flattened(repo, names, path).value)
    decreases Fresh(repo, path), |names|
  {
    if names != [] {
      var last := names[|names| - 1];
      NoGroupLeft(repo, names[..|names| - 1], path);
      if IsGroup(repo, last) {
        FreshShrinks(repo, path, last);
        NoGroupLeft(repo, Members(repo, last), path + [last]);
      }
    }
  }

  /** A list is expanded entry by entry, in order: a rule stands for itself, a group for the expansion of its
      members. */
  lemma {:induction false} FlattenedParts(repo: Repository, a: seq<string>, b: seq<string>, path: seq<string>)
    ensures Flattened(repo, a + b, path) ==
              if Flattened(repo, a, path).Ok? && Flattened(repo, b, path).Ok?
              then Ok(Flattened(repo, a, path).value + Flattened(repo, b, path).value) else Err
    decreases |b|
  {
    if b == [] {
      assert a + b == a;
      var all := Flattened(repo, a, path);
      assert all.Ok? ==> all.value + [] == all.value;
    } else {
      var front, last := b[..|b| - 1], b[|b| - 1];
      assert (a + b)[..|a + b| - 1] == a + front && (a + b)[|a + b| - 1] == last;
      FlattenedParts(repo, a, front, path);
      var x, y, z := Flattened(repo, a, path), Flattened(repo, front, path), Expanded(repo, last, path);
      if x.Ok? && y.Ok? && z.Ok? {
        assert (x.value + y.value) + z.value == x.value + (y.value + z.value);
      }
    }
  }

  lemma FlattenedOne(repo: Repository, name: string, path: seq<string>)
    ensures name !in repo ==> Flattened(repo, [name], path).Err?
    ensures name in repo && !repo[name].body.Group? ==> Flattened(repo, [name], path) == Ok([name])
    ensures name in repo && repo[name].body.Group? ==>
              Flattened(repo, [name], path) ==
              if name in path then Err else Flattened(repo, repo[name].body.members, path + [name])
  {
    assert [name][..0] == [];
    assert Flattened(repo, [], path) == Ok([]);
    var one := Expanded(repo, name, path);
    assert one.Ok? ==> [] + one.value == one.value;
  }

  /** The first rule of a flat list that matches. */
  function FirstOf(names: seq<string>, matches: string -> bool): Option<string> {
    if names == [] then None
    else
      var front := FirstOf(names[..|names| - 1], matches);
      if front.Some? then front else if matches(names[|names| - 1]) then Some(names[|names| - 1]) else None
  }

  /** The rule chosen when groups are entered one after the other instead of being dissolved. */
  function Chosen(repo: Repository, names: seq<string>, path: seq<string>, matches: string -> bool): Option<string>
    requires Flattened(repo, names, path).Ok?
    decreases Fresh(repo, path), |names|
  {
    if names == [] then None
    else
      var front := Chosen(repo, names[..|names| - 1], path, matches);
      var last := names[|names| - 1];
      if front.Some? then front
      else if IsGroup(repo, last) then
        assert Expanded(repo, last, path).Ok?;
        FreshShrinks(repo, path, last);
        Chosen(repo, Members(repo, last), path + [last], matches)
      else if matches(last) then Some(last)
      else None
  }

  lemma {:induction false} FirstOfConcat(a: seq<string>, b: seq<string>, matches: string -> bool)
    ensures FirstOf(a + b, matches) == if FirstOf(a, matches).Some? then FirstOf(a, matches) else FirstOf(b, matches)
    decreases |b|
  {
    if b == [] {
      assert a + b == a;
    } else {
      assert (a + b)[..|a + b| - 1] == a + b[..|b| - 1];
      FirstOfConcat(a, b[..|b| - 1], matches);
    }
  }

  /** Dissolving groups leaves the ordered first choice as it was, whatever the rules match. */
  lemma {:induction false} SameChoice(repo: Repository, names: seq<string>, path: seq<string>, matches: string -> bool)
    requires Flattened(repo, names, path).Ok?
    ensures FirstOf(Flattened(repo, names, path).value, matches) == Chosen(repo, names, path, matches)
    decreases Fresh(repo, path), |names|
  {
    if names != [] {
      var front, last := names[..|names| - 1], names[|names| - 1];
      SameChoice(repo, front, path, matches);
      FirstOfConcat(Flattened(repo, front, path).value, Expanded(repo, last, path).value, matches);
      if IsGroup(repo, last) {
        FreshShrinks(repo, path, last);
        SameChoice(repo, Members(repo, last), path + [last], matches);
      } else {
        OneChoice(last, matches);
      }
    }
  }

  lemma OneChoice(name: string, matches: string -> bool)
    ensures FirstOf([name], matches) == if matches(name) then Some(name) else None
  {
    assert [name][..0] == [];
  }

  // ----- a whole grammar ---------------------------------------------------------------------

  /** A pattern list with a dead end below it. */
  ghost predicate Broken(repo: Repository, names: seq<string>) {
    exists p :: DeadEnd(repo, p, []) && p[0] in names
  }

  function Patterns(repo: Repository, name: string): seq<string>
    requires name in repo && repo[name].body.BeginEnd?
  {
    repo[name].body.region.patterns
  }

  ghost predicate BrokenGrammar(repo: Repository, roots: seq<string>) {
    || Broken(repo, roots)
    || exists name :: name in repo && repo[name].body.BeginEnd? && Broken(repo, Patterns(repo, name))
  }

  function FlatRule(repo: Repository, name: string): Rule
    requires name in repo && (repo[name].body.BeginEnd? ==> Flattened(repo, Patterns(repo, name), []).Ok?)
  {
    var rule := repo[name];
    if rule.body.BeginEnd?
    then rule.(body := BeginEnd(rule.body.region.(patterns := Flattened(repo, Patterns(repo, name), []).value)))
    else rule
  }

  /** Nothing of a rule changes but the list of a region, which is flattened. */
  ghost predicate OnlyFlattened(repo: Repository, was: Rule, now: Rule) {
    && now.name == was.name
    && match was.body
       case Group(_) => false
       case Match(regex, captures) => now.body == Match(regex, captures)
       case BeginEnd(r) =>
         && now.body.BeginEnd?
         && now.body.region.begin == r.begin && now.body.region.beginCaptures == r.beginCaptures
         && now.body.region.end == r.end && now.body.region.endCaptures == r.endCaptures
         && now.body.region.contentName == r.contentName
         && Flattened(repo, r.patterns, []) == Ok(now.body.region.patterns)
  }

  lemma FlatRuleKeeps(repo: Repository, name: string)
    requires name in repo && !IsGroup(repo, name)
    requires repo[name].body.BeginEnd? ==> Flattened(repo, Patterns(repo, name), []).Ok?
    ensures OnlyFlattened(repo, repo[name], FlatRule(repo, name))
  {
    hide Flattened;
  }

  /** Groups are gone, and every list names rules that are there. */
  ghost predicate Closed(flat: Repository, roots: seq<string>) {
    && Flat(flat, roots)
    && forall name :: name in flat ==>
        !IsGroup(flat, name) && (flat[name].body.BeginEnd? ==> Flat(flat, Patterns(flat, name)))
  }

  method Unresolved(repo: Repository, names: seq<string>) returns (r: bool)
    ensures r <==> exists i :: 0 <= i < |names| && names[i] !in repo
  {
    r := false;
    for i := 0 to |names|
      invariant r <==> exists k :: 0 <= k < i && names[k] !in repo
    {
      r := r || names[i] !in repo;
    }
  }

  lemma UnresolvedBreaks(repo: Repository, names: seq<string>, i: nat)
    requires i < |names| && names[i] !in repo
    ensures Broken(repo, names)
  {
    assert DeadEnd(repo, [names[i]], []);
  }

  /** The part of `from_value` behind parsing: every include must resolve, every list is flattened, groups go. */
  method Load(repo: Repository, roots: seq<string>) returns (r: Result<(seq<string>, Repository)>)
    ensures r.Err? <==> BrokenGrammar(repo, roots)
    ensures r.Ok? ==>
              && Flattened(repo, roots, []) == Ok(r.value.0) && Closed(r.value.1, r.value.0)
              && (forall name :: name in r.value.1 <==> name in repo && !IsGroup(repo, name))
              && (forall name :: name in r.value.1 ==>
                    (repo[name].body.BeginEnd? ==> Flattened(repo, Patterns(repo, name), []).Ok?)
                    && r.value.1[name] == FlatRule(repo, name))
    ensures r.Ok? ==> forall name :: name in r.value.1 ==> OnlyFlattened(repo, repo[name], r.value.1[name])
  {
    hide Broken, Closed, Flattened, FlatRule, OnlyFlattened;
    var missing := Unresolved(repo, roots);
    if missing {
      var i :| 0 <= i < |roots| && roots[i] !in repo;
      UnresolvedBreaks(repo, roots, i);
      return Err;
    }
    var flat: Repository := map[];
    var todo := repo.Keys;
    while todo != {}
      invariant todo <= repo.Keys
      invariant forall name :: name in flat <==> name in repo.Keys - todo && !IsGroup(repo, name)
      invariant forall name :: name in repo.Keys - todo && repo[name].body.BeginEnd? ==>
                                 Flattened(repo, Patterns(repo, name), []).Ok? && !Broken(repo, Patterns(repo, name))
      invariant forall name :: name in flat ==> flat[name] == FlatRule(repo, name)
      decreases |todo|
    {
      var name :| name in todo;
      todo := todo - {name};
      if repo[name].body.BeginEnd? {
        var patterns := Patterns(repo, name);
        var unresolved := Unresolved(repo, patterns);
        if unresolved {
          var i :| 0 <= i < |patterns| && patterns[i] !in repo;
          UnresolvedBreaks(repo, patterns, i);
          return Err;
        }
        FailsExactly(repo, patterns);
        BrokenIs(repo, patterns);
        var list, stack := FlattenList(repo, patterns, []);
        if list.Err? {
          return Err;
        }
        FlatRegion(repo, name, list.value);
        flat := flat[name := repo[name].(body := BeginEnd(repo[name].body.region.(patterns := list.value)))];
      } else if !IsGroup(repo, name) {
        FlatOther(repo, name);
        flat := flat[name := repo[name]];
      }
    }
    FailsExactly(repo, roots);
    BrokenIs(repo, roots);
    var rootList, stack := FlattenList(repo, roots, []);
    if rootList.Err? {
      return Err;
    }
    LoadCloses(repo, roots, flat);
    forall name | name in flat
      ensures OnlyFlattened(repo, repo[name], flat[name])
    {
      FlatRuleKeeps(repo, name);
    }
    return Ok((rootList.value, flat));
  }

  lemma BrokenIs(repo: Repository, names: seq<string>)
    ensures Broken(repo, names) <==> exists p :: DeadEnd(repo, p, []) && p[0] in names
  {
  }

  lemma FlatRegion(repo: Repository, name: string, list: seq<string>)
    requires name in repo && repo[name].body.BeginEnd? && Flattened(repo, Patterns(repo, name), []) == Ok(list)
    ensures FlatRule(repo, name) == repo[name].(body := BeginEnd(repo[name].body.region.(patterns := list)))
  {
  }

  lemma FlatOther(repo: Repository, name: string)
    requires name in repo && !repo[name].body.BeginEnd?
    ensures FlatRule(repo, name) == repo[name]
  {
  }

  lemma LoadCloses(repo: Repository, roots: seq<string>, flat: Repository)
    requires Flattened(repo, roots, []).Ok?
    requires forall name :: name in flat <==> name in repo && !IsGroup(repo, name)
    requires forall name :: name in repo && repo[name].body.BeginEnd? ==> Flattened(repo, Patterns(repo, name), []).Ok?
    requires forall name :: name in flat ==> flat[name] == FlatRule(repo, name)
    ensures Closed(flat, Flattened(repo, roots, []).value)
  {
    hide Flattened;
    NoGroupLeft(repo, roots, []);
    forall name | name in flat
      ensures !IsGroup(flat, name) && (flat[name].body.BeginEnd? ==> Flat(flat, Patterns(flat, name)))
    {
      if repo[name].body.BeginEnd? {
        NoGroupLeft(repo, Patterns(repo, name), []);
      }
    }
    assert forall name :: name in flat ==> !IsGroup(flat, name);
  }
}
