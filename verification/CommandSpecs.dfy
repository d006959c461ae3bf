/**
 * Command names of the skills in a workspace (packages/skills/src/command-specs.ts): clashing
 * names get a number. Cutting a skill's name down to a command name is a parameter.
 */
module CommandSpecs {
  import opened Decimal

  datatype Skill = Skill(name: string, description: string, userInvocable: bool)
  datatype CommandSpec = CommandSpec(name: string, description: string, skillName: string)

  const FIRST_SUFFIX: nat := 2

  /** The k-th name that is tried for a base. */
  function Candidate(base: string, k: nat): string {
    if k == 0 then base else base + "_" + Numeral(k + 1)
  }

  lemma CandidatesDiffer(base: string, j: nat, k: nat)
    requires j != k
    ensures Candidate(base, j) != Candidate(base, k)
  {
    hide Numeral;
    if Candidate(base, j) == Candidate(base, k) && j > 0 && k > 0 {
      assert Candidate(base, j)[|base| + 1..] == Numeral(j + 1) && Candidate(base, k)[|base| + 1..] == Numeral(k + 1);
      ValueOfNumeral(j + 1);
      ValueOfNumeral(k + 1);
    }
  }

  function Tried(base: string, n: nat): (s: set<string>)
    ensures forall x :: x in s <==> exists k :: 0 <= k < n && x == Candidate(base, k)
  {
    set k | 0 <= k < n :: Candidate(base, k)
  }

  lemma {:induction false} TriedCount(base: string, n: nat)
    ensures |Tried(base, n)| == n
  {
    hide Candidate;
    if n > 0 {
      TriedCount(base, n - 1);
      assert Candidate(base, n - 1) !in Tried(base, n - 1) by {
        forall k | 0 <= k < n - 1 ensures Candidate(base, k) != Candidate(base, n - 1) {
          CandidatesDiffer(base, k, n - 1);
        }
      }
      assert Tried(base, n) == Tried(base, n - 1) + {Candidate(base, n - 1)};
    }
  }

  /** The suffix loop ends: more names are free than can have been used. */
  lemma FewCanBeUsed(base: string, n: nat, used: set<string>)
    requires forall k :: 0 <= k < n ==> Candidate(base, k) in used
    ensures n <= |used|
  {
    hide Candidate;
    TriedCount(base, n);
    assert Tried(base, n) <= used;
    assert used == Tried(base, n) + (used - Tried(base, n));
  }

  /** The first candidate that is not used yet. */
  method FreeName(base: string, used: set<string>) returns (name: string, ghost k: nat)
    ensures name !in used && name == Candidate(base, k) && k <= |used|
    ensures forall j :: 0 <= j < k ==> Candidate(base, j) in used
  {
    hide Numeral;
    name := base;
    var suffix := FIRST_SUFFIX;
    k := 0;
    while name in used
      invariant suffix == k + FIRST_SUFFIX && name == Candidate(base, k)
      invariant forall j :: 0 <= j < k ==> Candidate(base, j) in used
      decreases |used| + 1 - k
    {
      FewCanBeUsed(base, k + 1, used);
      name := base + "_" + Numeral(suffix);
      k := k + 1;
      suffix := suffix + 1;
    }
    FewCanBeUsed(base, k, used);
  }

  function Invocable(entries: seq<Skill>): (r: seq<Skill>)
    ensures forall s :: s in r <==> s in entries && s.userInvocable
  {
    if entries == [] then [] else (if entries[0].userInvocable then [entries[0]] else []) + Invocable(entries[1..])
  }

  function Shortened(description: string): (d: string)
    ensures |d| <= 100 && (|description| <= 100 ==> d == description)
  {
    if |description| > 100 then description[..97] + "..." else description
  }

  ghost predicate Distinct(specs: seq<CommandSpec>) {
    forall i, j :: 0 <= i < j < |specs| ==> specs[i].name != specs[j].name
  }

  ghost predicate TakenBefore(specs: seq<CommandSpec>, i: nat, name: string) {
    exists m :: 0 <= m < i && m < |specs| && specs[m].name == name
  }

  ghost predicate NamedBy(specs: seq<CommandSpec>, i: nat, base: string, k: nat) {
    i < |specs| && specs[i].name == Candidate(base, k) && forall j :: 0 <= j < k ==>
      TakenBefore(specs, i, Candidate(base, j))
  }

  /** The name is the base of the skill, or the first numbered one that no earlier command has. */
  ghost predicate Named(specs: seq<CommandSpec>, i: nat, base: string) { exists k: nat :: NamedBy(specs, i, base, k) }

  predicate Describes(spec: CommandSpec, s: Skill) {
    spec.skillName == s.name && spec.description == Shortened(s.description)
  }

  ghost predicate AllNamed(specs: seq<CommandSpec>, skills: seq<Skill>, sanitize: string -> string) {
    |specs| <= |skills| && forall i :: 0 <= i < |specs| ==>
      Describes(specs[i], skills[i]) && Named(specs, i, sanitize(skills[i].name))
  }

  /** The names in use. */
  ghost predicate InUse(used: set<string>, specs: seq<CommandSpec>) {
    forall x :: x in used <==> TakenBefore(specs, |specs|, x)
  }

  /** buildWorkspaceSkillCommandSpecs */
  method BuildCommandSpecs(entries: seq<Skill>, sanitize: string -> string) returns (specs: seq<CommandSpec>)
    ensures Distinct(specs) && |specs| == |Invocable(entries)| && AllNamed(specs, Invocable(entries), sanitize)
  {
    hide Candidate, Shortened, Named, Distinct, InUse, AllNamed;
    var invocable := Invocable(entries);
    var used := {};
    specs := [];
    NoneNamed(invocable, sanitize);
    for n := 0 to |invocable|
      invariant |specs| == n && Distinct(specs) && InUse(used, specs) && AllNamed(specs, invocable, sanitize)
    {
      var base := sanitize(invocable[n].name);
      var name, k := FreeName(base, used);
      var spec := CommandSpec(name, Shortened(invocable[n].description), invocable[n].name);
      OneMoreNamed(specs, used, spec, invocable, sanitize, k);
      used := used + {name};
      specs := specs + [spec];
    }
  }

  lemma NoneNamed(skills: seq<Skill>, sanitize: string -> string)
    ensures Distinct([]) && InUse({}, []) && AllNamed([], skills, sanitize)
  {
  }

  lemma StillTaken(specs: seq<CommandSpec>, spec: CommandSpec, i: nat, name: string)
    requires TakenBefore(specs, i, name)
    ensures TakenBefore(specs + [spec], i, name)
  {
    var m :| 0 <= m < i && m < |specs| && specs[m].name == name;
    assert (specs + [spec])[m].name == name;
  }

  lemma TakenInMore(specs: seq<CommandSpec>, spec: CommandSpec, name: string)
    ensures TakenBefore(specs + [spec], |specs| + 1, name) <==> TakenBefore(specs, |specs|, name) || spec.name == name
  {
    var more := specs + [spec];
    if TakenBefore(specs, |specs|, name) { StillTaken(specs, spec, |specs|, name); }
    if spec.name == name { assert more[|specs|].name == name; }
    if TakenBefore(more, |specs| + 1, name) && spec.name != name {
      var m :| 0 <= m < |specs| + 1 && m < |more| && more[m].name == name;
      assert specs[m].name == name;
    }
  }

  lemma StillNamed(specs: seq<CommandSpec>, spec: CommandSpec, i: nat, base: string)
    requires i < |specs| && Named(specs, i, base)
    ensures Named(specs + [spec], i, base)
  {
    hide Candidate, TakenBefore;
    var k: nat :| NamedBy(specs, i, base, k);
    forall j | 0 <= j < k ensures TakenBefore(specs + [spec], i, Candidate(base, j)) {
      StillTaken(specs, spec, i, Candidate(base, j));
    }
    assert NamedBy(specs + [spec], i, base, k);
  }

  /** The new command is named, and the earlier ones still are. */
  lemma OneMoreNamed(specs: seq<CommandSpec>, used: set<string>, spec: CommandSpec, skills: seq<Skill>,
                     sanitize: string -> string, k: nat)
    requires |specs| < |skills| && Distinct(specs) && InUse(used, specs) && AllNamed(specs, skills, sanitize)
    requires Describes(spec, skills[|specs|]) && spec.name !in used
      && spec.name == Candidate(sanitize(skills[|specs|].name), k)
    requires forall j :: 0 <= j < k ==> Candidate(sanitize(skills[|specs|].name), j) in used
    ensures var more := specs + [spec];
      Distinct(more) && InUse(used + {spec.name}, more) && AllNamed(more, skills, sanitize)
  {
    hide Candidate, Describes, Named;
    var more, n, base := specs + [spec], |specs|, sanitize(skills[|specs|].name);
    forall x ensures x in used + {spec.name} <==> TakenBefore(more, n + 1, x) { TakenInMore(specs, spec, x); }
    forall i | 0 <= i < n ensures Named(more, i, sanitize(skills[i].name)) && specs[i].name != spec.name {
      StillNamed(specs, spec, i, sanitize(skills[i].name));
      assert TakenBefore(specs, n, specs[i].name);
    }
    forall j | 0 <= j < k ensures TakenBefore(more, n, Candidate(base, j)) {
      StillTaken(specs, spec, n, Candidate(base, j));
    }
    NamedNow(more, n, base, k);
  }

  lemma NamedNow(specs: seq<CommandSpec>, i: nat, base: string, k: nat)
    requires NamedBy(specs, i, base, k)
    ensures Named(specs, i, base)
  {
  }
}
