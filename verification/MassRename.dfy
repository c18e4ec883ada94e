/**
 The two-phase mass rename (scripts/mass_rename_headers.py): the two rename plans, their validation,
 and the rename through temporary names.  Names are converted in SnakeCase.

 Letter case is ASCII case.  A path is a directory and a file name in it.
 */
module MassRename {
  import opened Decimal
  import opened SnakeCase
  import opened Text
  import opened Wrappers

  datatype Path = Path(dir: string, name: string)

  datatype Entry = Entry(from: Path, to: Path)

  type Files = map<Path, string>

  // ----- names -----

  /** Where the suffix of a file name starts: at its last dot, unless that is the first or last character. */
  function SuffixStart(name: string): (i: nat)
    ensures i <= |name|
    ensures i < |name| ==> 0 < i < |name| - 1 && name[i] == '.' && '.' !in name[i + 1..]
  {
    var i := LastDot(name);
    if i.Some? && 0 < i.value < |name| - 1 then i.value else |name|
  }

  function LastDot(s: string): (i: Option<nat>)
    ensures i.Some? ==> i.value < |s| && s[i.value] == '.' && '.' !in s[i.value + 1..]
  {
    if s == "" then None
    else if s[|s| - 1] == '.' then Some(|s| - 1)
    else LastDot(s[..|s| - 1])
  }

  function Suffix(name: string): string {
    name[SuffixStart(name)..]
  }

  function Stem(name: string): string {
    name[..SuffixStart(name)]
  }

  // ----- the plans -----

  datatype Mode = PascalToSnakeMode | HToHpp

  predicate Selects(mode: Mode, name: string) {
    match mode
    case PascalToSnakeMode => (Suffix(name) == ".cpp" || Suffix(name) == ".hpp") && HasUpper(Stem(name))
    case HToHpp => Suffix(name) == ".h"
  }

  function NewName(mode: Mode, name: string): string {
    match mode
    case PascalToSnakeMode => PascalToSnake(Stem(name)) + Suffix(name)
    case HToHpp => Stem(name) + ".hpp"
  }

  /** The entries for a listing of files, in its order; entries that change nothing are left out. */
  function Plan(mode: Mode, listing: seq<Path>): seq<Entry> {
    if listing == [] then [] else
      var n := |listing| - 1;
      var p := listing[n];
      Plan(mode, listing[..n])
      + (if Selects(mode, p.name) && NewName(mode, p.name) != p.name then [Entry(p, Path(p.dir, NewName(mode, p.name)))] else [])
  }

  /** A plan of either mode over existing files, each once, in any order. */
  ghost predicate IsPlan(mode: Mode, files: Files, plan: seq<Entry>) {
    && (forall i :: 0 <= i < |plan| ==>
          && plan[i].from in files && Selects(mode, plan[i].from.name)
          && plan[i].to == Path(plan[i].from.dir, NewName(mode, plan[i].from.name)))
    && (forall i, j :: 0 <= i < j < |plan| ==> plan[i].from != plan[j].from)
  }

  lemma {:induction false} PlanIsPlan(mode: Mode, files: Files, listing: seq<Path>)
    requires forall i :: 0 <= i < |listing| ==> listing[i] in files
    requires forall i, j :: 0 <= i < j < |listing| ==> listing[i] != listing[j]
    ensures IsPlan(mode, files, Plan(mode, listing))
    ensures forall i :: 0 <= i < |Plan(mode, listing)| ==> Plan(mode, listing)[i].from in listing
  {
    if listing != [] {
      var n := |listing| - 1;
      PlanIsPlan(mode, files, listing[..n]);
      forall i | 0 <= i < |Plan(mode, listing[..n])|
        ensures Plan(mode, listing[..n])[i].from != listing[n]
      {
        assert Plan(mode, listing[..n])[i].from in listing[..n];
      }
    }
  }

  /** A name made of a stem, a dot and an extension, which is where its suffix starts. */
  ghost predicate IsNameOf(name: string, stem: string, extension: string) {
    name == stem + ("." + extension) && stem != "" && extension != "" && '.' !in extension
  }

  lemma {:induction false} LastDotOf(a: string, b: string)
    requires '.' !in b
    ensures LastDot(a + ("." + b)) == Some(|a|)
  {
    var s := a + ("." + b);
    if b != "" {
      assert s[|s| - 1] == b[|b| - 1];
      assert s[..|s| - 1] == a + ("." + b[..|b| - 1]);
      LastDotOf(a, b[..|b| - 1]);
    } else {
      assert s[|s| - 1] == '.';
    }
  }

  lemma {:induction false} StemAndSuffix(name: string, stem: string, extension: string)
    requires IsNameOf(name, stem, extension)
    ensures Stem(name) == stem && Suffix(name) == "." + extension
  {
    LastDotOf(stem, extension);
  }

  /** The stem has a capital letter. */
  ghost predicate HasCapital(stem: string) {
    exists i :: 0 <= i < |stem| && 'A' <= stem[i] <= 'Z'
  }

  /** What each planner is for: which names it changes, and into what. */
  ghost predicate IsChange(mode: Mode, name: string, newName: string) {
    exists stem, extension :: IsChangeOf(mode, name, stem, extension, newName)
  }

  ghost predicate IsChangeOf(mode: Mode, name: string, stem: string, extension: string, newName: string) {
    && IsNameOf(name, stem, extension)
    && match mode
       case PascalToSnakeMode => (extension == "cpp" || extension == "hpp") && HasCapital(stem) && newName == PascalToSnake(stem) + ("." + extension)
       case HToHpp => extension == "h" && newName == stem + ".hpp"
  }

  lemma {:induction false} SuffixGives(name: string, extension: string)
    requires Suffix(name) == "." + extension
    ensures IsNameOf(name, Stem(name), extension)
  {
    var i := SuffixStart(name);
    assert name == name[..i] + name[i..];
    assert i < |name| by {
      assert |Suffix(name)| == |name| - i;
    }
    assert name[i + 1..] == Suffix(name)[1..] == extension;
  }

  /** The planners change exactly those names. */
  lemma {:induction false} PlannedExactly(mode: Mode, name: string, newName: string)
    ensures Selects(mode, name) && newName == NewName(mode, name) <==> IsChange(mode, name, newName)
    ensures Selects(mode, name) ==> NewName(mode, name) != name
  {
    if Selects(mode, name) {
      SelectedIsChange(mode, name);
      NewNameIsNotMarked(mode, name);
      SelectedIsMarked(mode, name);
    }
    if stem, extension :| IsChangeOf(mode, name, stem, extension, newName) {
      ChangeIsPlanned(mode, name, stem, extension, newName);
    }
  }

  lemma {:induction false} SelectedIsChange(mode: Mode, name: string)
    requires Selects(mode, name)
    ensures IsChange(mode, name, NewName(mode, name))
  {
    var extension := if mode.HToHpp? then "h" else if Suffix(name) == ".cpp" then "cpp" else "hpp";
    SuffixGives(name, extension);
    assert mode.PascalToSnakeMode? ==> HasCapital(Stem(name));
    assert IsChangeOf(mode, name, Stem(name), extension, NewName(mode, name));
  }

  lemma {:induction false} ChangeIsPlanned(mode: Mode, name: string, stem: string, extension: string, newName: string)
    requires IsChangeOf(mode, name, stem, extension, newName)
    ensures Selects(mode, name) && newName == NewName(mode, name)
  {
    StemAndSuffix(name, stem, extension);
    assert mode.PascalToSnakeMode? ==> HasUpper(stem);
  }

  /** The entry of a listed file, if its name is one to change. */
  ghost predicate IsEntryOf(mode: Mode, p: Path, e: Entry) {
    e.from == p && e.to.dir == p.dir && IsChange(mode, p.name, e.to.name)
  }

  /**
   A plan holds every listed file with a name to change, once, with its new name in the same directory, in the
   order of the listing, and nothing else.  `at` tells for each entry the place of its file in the listing.
   */
  ghost predicate IsPlanFor(mode: Mode, listing: seq<Path>, plan: seq<Entry>, at: seq<nat>) {
    && |at| == |plan|
    && (forall k :: 0 <= k < |plan| ==> at[k] < |listing| && IsEntryOf(mode, listing[at[k]], plan[k]))
    && (forall k, l :: 0 <= k < l < |plan| ==> at[k] < at[l])
    && (forall i, e :: 0 <= i < |listing| && IsEntryOf(mode, listing[i], e) ==> i in at)
  }

  lemma {:induction false} PlanIsComplete(mode: Mode, listing: seq<Path>) returns (at: seq<nat>)
    ensures IsPlanFor(mode, listing, Plan(mode, listing), at)
  {
    if listing == [] {
      at := [];
    } else {
      var n := |listing| - 1;
      var p := listing[n];
      var before := PlanIsComplete(mode, listing[..n]);
      var e := Entry(p, Path(p.dir, NewName(mode, p.name)));
      EntryPlanned(mode, p, e);
      if Selects(mode, p.name) {
        at := before + [n];
        PlanGrows(mode, listing, Plan(mode, listing[..n]), before, e);
      } else {
        at := before;
        PlanStays(mode, listing, Plan(mode, listing[..n]), before, p);
      }
    }
  }

  lemma {:induction false} EntryPlanned(mode: Mode, p: Path, e: Entry)
    requires e == Entry(p, Path(p.dir, NewName(mode, p.name)))
    ensures Selects(mode, p.name) ==> IsEntryOf(mode, p, e) && e.to.name != p.name
    ensures !Selects(mode, p.name) ==> forall other :: !IsEntryOf(mode, p, other)
  {
    PlannedExactly(mode, p.name, e.to.name);
    forall other | IsEntryOf(mode, p, other)
      ensures Selects(mode, p.name)
    {
      PlannedExactly(mode, p.name, other.to.name);
    }
  }

  lemma {:induction false} PlanGrows(mode: Mode, listing: seq<Path>, plan: seq<Entry>, at: seq<nat>, e: Entry)
    requires listing != [] && IsPlanFor(mode, listing[..|listing| - 1], plan, at) && IsEntryOf(mode, listing[|listing| - 1], e)
    ensures IsPlanFor(mode, listing, plan + [e], at + [|listing| - 1])
  {
    var n := |listing| - 1;
    assert forall i :: 0 <= i < n ==> listing[..n][i] == listing[i];
    assert (at + [n])[|at|] == n;
    forall i, x | 0 <= i < |listing| && IsEntryOf(mode, listing[i], x)
      ensures i in at + [n]
    {
      assert i < n ==> IsEntryOf(mode, listing[..n][i], x);
    }
  }

  lemma {:induction false} PlanStays(mode: Mode, listing: seq<Path>, plan: seq<Entry>, at: seq<nat>, p: Path)
    requires listing != [] && IsPlanFor(mode, listing[..|listing| - 1], plan, at)
    requires p == listing[|listing| - 1] && forall e :: !IsEntryOf(mode, p, e)
    ensures IsPlanFor(mode, listing, plan + [], at)
  {
    var n := |listing| - 1;
    assert plan + [] == plan;
    assert forall i :: 0 <= i < n ==> listing[..n][i] == listing[i];
    forall i, x | 0 <= i < |listing| && IsEntryOf(mode, listing[i], x)
      ensures i in at
    {
      assert i < n ==> IsEntryOf(mode, listing[..n][i], x);
    }
  }

  function Olds(plan: seq<Entry>): set<Path> {
    set i | 0 <= i < |plan| :: plan[i].from
  }

  function News(plan: seq<Entry>): set<Path> {
    set i | 0 <= i < |plan| :: plan[i].to
  }

  /** No two files get one name, and no name is taken by a file that stays. */
  ghost predicate IsSafe(files: Files, plan: seq<Entry>) {
    && (forall i, j :: 0 <= i < j < |plan| ==> plan[i].to != plan[j].to)
    && (forall i :: 0 <= i < |plan| && plan[i].to in files ==> plan[i].to in Olds(plan))
  }

  datatype Verdict = Ok | Collision(to: Path) | Occupied(to: Path)

  // ----- letter case -----

  /** The path as it counts for comparison, when letter case is ignored or not. */
  function Fold(ignoresCase: bool, p: Path): Path {
    if ignoresCase then Path(Lower(p.dir), Lower(p.name)) else p
  }

  function FoldPlan(ignoresCase: bool, plan: seq<Entry>): (folded: seq<Entry>)
    ensures |folded| == |plan|
    ensures forall i :: 0 <= i < |plan| ==> folded[i] == Entry(Fold(ignoresCase, plan[i].from), Fold(ignoresCase, plan[i].to))
  {
    seq(|plan|, i requires 0 <= i < |plan| => Entry(Fold(ignoresCase, plan[i].from), Fold(ignoresCase, plan[i].to)))
  }

  lemma {:induction false} FoldNothing(plan: seq<Entry>)
    ensures FoldPlan(false, plan) == plan
  {
  }

  /**
   What validation accepts.  `lexists` tells whether the disk has something at a path; `blind` is how paths
   compare with each other, which is without letter case on Windows and with it elsewhere.
   */
  ghost predicate Passes(blind: bool, lexists: Path -> bool, plan: seq<Entry>) {
    && (forall i, j :: 0 <= i < j < |plan| ==> Fold(blind, plan[i].to) != Fold(blind, plan[j].to))
    && (forall i :: 0 <= i < |plan| && lexists(plan[i].to) ==> Fold(blind, plan[i].to) in Olds(FoldPlan(blind, plan)))
  }

  /** Where disk and paths agree about letter case, these are the safe plans. */
  lemma {:induction false} PassesIsSafe(blind: bool, lexists: Path -> bool, files: Files, plan: seq<Entry>)
    requires forall p :: lexists(p) <==> Fold(blind, p) in files
    ensures Passes(blind, lexists, plan) <==> IsSafe(files, FoldPlan(blind, plan))
  {
    var folded := FoldPlan(blind, plan);
    assert forall i :: 0 <= i < |plan| ==> folded[i].to == Fold(blind, plan[i].to);
    if IsSafe(files, folded) {
      forall i, j | 0 <= i < j < |plan|
        ensures Fold(blind, plan[i].to) != Fold(blind, plan[j].to)
      {
        assert folded[i].to != folded[j].to;
      }
      forall i | 0 <= i < |plan| && lexists(plan[i].to)
        ensures Fold(blind, plan[i].to) in Olds(folded)
      {
        assert folded[i].to in files;
      }
    }
  }

  /** The first `k` entries give no reason for refusal. */
  ghost predicate PassesUpTo(lexists: Path -> bool, plan: seq<Entry>, folded: seq<Entry>, k: nat)
    requires k <= |plan| == |folded|
  {
    && (forall i, j :: 0 <= i < j < k ==> folded[i].to != folded[j].to)
    && (forall i :: 0 <= i < k && lexists(plan[i].to) ==> folded[i].to in Olds(folded))
  }

  lemma {:induction false} PassesAll(blind: bool, lexists: Path -> bool, plan: seq<Entry>)
    ensures PassesUpTo(lexists, plan, FoldPlan(blind, plan), |plan|) <==> Passes(blind, lexists, plan)
  {
    var folded := FoldPlan(blind, plan);
    assert forall i :: 0 <= i < |plan| ==> folded[i].to == Fold(blind, plan[i].to);
    if Passes(blind, lexists, plan) {
      forall i, j | 0 <= i < j < |plan|
        ensures folded[i].to != folded[j].to
      {
        assert Fold(blind, plan[i].to) != Fold(blind, plan[j].to);
      }
    }
    if PassesUpTo(lexists, plan, folded, |plan|) {
      forall i, j | 0 <= i < j < |plan|
        ensures Fold(blind, plan[i].to) != Fold(blind, plan[j].to)
      {
        assert folded[i].to != folded[j].to;
      }
    }
  }

  lemma {:induction false} NewsBefore(plan: seq<Entry>, k: nat)
    requires k < |plan|
    ensures plan[k].to in News(plan[..k]) <==> exists i :: 0 <= i < k && plan[i].to == plan[k].to
  {
    assert forall i :: 0 <= i < k ==> plan[..k][i] == plan[i];
    if i :| 0 <= i < k && plan[i].to == plan[k].to {
      assert plan[..k][i].to in News(plan[..k]);
    }
  }

  lemma {:induction false} CollisionFound(blind: bool, plan: seq<Entry>, k: nat)
    requires k < |plan| && exists i :: 0 <= i < k && FoldPlan(blind, plan)[i].to == FoldPlan(blind, plan)[k].to
    ensures exists i, j :: 0 <= i < j < |plan| && Fold(blind, plan[i].to) == Fold(blind, plan[j].to) && plan[j].to == plan[k].to
    ensures forall lexists: Path -> bool :: !PassesUpTo(lexists, plan, FoldPlan(blind, plan), |plan|)
  {
    var i :| 0 <= i < k && FoldPlan(blind, plan)[i].to == FoldPlan(blind, plan)[k].to;
    assert Fold(blind, plan[i].to) == Fold(blind, plan[k].to);
  }

  method ValidatePlan(blind: bool, lexists: Path -> bool, plan: seq<Entry>) returns (verdict: Verdict)
    ensures verdict.Ok? <==> Passes(blind, lexists, plan)
    ensures verdict.Collision? ==>
              exists i, j :: 0 <= i < j < |plan| && Fold(blind, plan[i].to) == Fold(blind, plan[j].to) && plan[j].to == verdict.to
    ensures verdict.Occupied? ==>
              lexists(verdict.to) && verdict.to in News(plan) && Fold(blind, verdict.to) !in Olds(FoldPlan(blind, plan))
  {
    var folded := FoldPlan(blind, plan);
    PassesAll(blind, lexists, plan);
    var oldPaths := Olds(folded);
    var newPathToOld: map<Path, Path> := map[];
    for k := 0 to |plan|
      invariant newPathToOld.Keys == News(folded[..k])
      invariant PassesUpTo(lexists, plan, folded, k)
    {
      var to := folded[k].to;
      NewsBefore(folded, k);
      if to in newPathToOld {
        CollisionFound(blind, plan, k);
        return Collision(plan[k].to);
      }
      NewsNext(folded, k);
      newPathToOld := newPathToOld[to := plan[k].from];
      if lexists(plan[k].to) && to !in oldPaths {
        assert plan[k].to in News(plan);
        return Occupied(plan[k].to);
      }
    }
    return Ok;
  }

  // ----- temporary names -----

  function TempName(index: nat, name: string): string {
    ".__rename_tmp__" + ToText(index) + "__" + name
  }

  ghost function WithLength(taken: set<Path>, n: nat): set<Path> {
    set p | p in taken && |p.name| >= n
  }

  /** The first of `temp`, `temp_`, `temp__`, ... that is not taken. */
  function FreePath(taken: set<Path>, temp: Path): (free: Path)
    ensures free !in taken
    decreases WithLength(taken, |temp.name|)
  {
    if temp !in taken then temp else
      assert temp in WithLength(taken, |temp.name|) - WithLength(taken, |temp.name| + 1);
      FreePath(taken, Path(temp.dir, temp.name + "_"))
  }

  /** The temporary path of entry |temps|, after those before it were moved to `temps`. */
  function TempPath(paths: set<Path>, plan: seq<Entry>, temps: seq<Path>): Path
    requires |temps| < |plan|
  {
    var from := plan[|temps|].from;
    FreePath((paths - Olds(plan[..|temps|])) + Range(temps), Path(from.dir, TempName(|temps|, from.name)))
  }

  /** The temporary paths of the first `k` entries, from the paths of the files there are. */
  function TempPaths(paths: set<Path>, plan: seq<Entry>, k: nat): (temps: seq<Path>)
    requires k <= |plan|
    ensures |temps| == k
  {
    if k == 0 then [] else
      var temps := TempPaths(paths, plan, k - 1);
      temps + [TempPath(paths, plan, temps)]
  }

  /** No new path of an entry is the temporary path of a later one. */
  ghost predicate NoClash(plan: seq<Entry>, temps: seq<Path>) {
    forall i, j :: 0 <= i < |plan| && i < j < |temps| ==> temps[j] != plan[i].to
  }

  // ----- the rename -----

  /** What `execute_renames` needs to get through: each file to move exists and is listed once. */
  ghost predicate HasSources(files: Files, plan: seq<Entry>) {
    && (forall i :: 0 <= i < |plan| ==> plan[i].from in files)
    && (forall i, j :: 0 <= i < j < |plan| ==> plan[i].from != plan[j].from)
  }

  /** What a rename is for: the planned files are at their new paths, all others where they were, and nothing else. */
  ghost predicate IsRenamed(before: Files, after: Files, plan: seq<Entry>) {
    && (forall i :: 0 <= i < |plan| ==>
          plan[i].from in before && plan[i].to in after && after[plan[i].to] == before[plan[i].from])
    && (forall p :: p in before && p !in Olds(plan) ==> p in after && after[p] == before[p])
    && after.Keys == (before.Keys - Olds(plan)) + News(plan)
  }

  /** A file as the disk keeps it: under its folded path, with its name as it was last given. */
  datatype File = File(name: Path, content: string)

  type Disk = map<Path, File>

  function Contents(disk: Disk): (files: Files)
    ensures files.Keys == disk.Keys
  {
    map p | p in disk :: disk[p].content
  }

  class FileSystem {
    const ignoresCase: bool
    var disk: Disk

    constructor (ignoresCase: bool, disk: Disk)
      ensures this.ignoresCase == ignoresCase && this.disk == disk
    {
      this.ignoresCase, this.disk := ignoresCase, disk;
    }

    function At(p: Path): Path {
      Fold(ignoresCase, p)
    }

    /** Moves a file; a file at the target would be replaced without notice. */
    method Rename(from: Path, to: Path)
      requires At(from) in disk
      modifies this
      ensures disk == (old(disk) - {At(from)})[At(to) := File(to, old(disk)[At(from)].content)]
      ensures Contents(disk) == (Contents(old(disk)) - {At(from)})[At(to) := Contents(old(disk))[At(from)]]
    {
      var content := disk[At(from)].content;
      disk := (disk - {At(from)})[At(to) := File(to, content)];
    }

    /** A name in the directory of `from` that no file has. */
    method FreeTempPath(index: nat, from: Path) returns (temp: Path)
      ensures At(temp) !in disk && At(temp) == FreePath(disk.Keys, Path(At(from).dir, TempName(index, At(from).name)))
    {
      temp := Path(from.dir, TempName(index, from.name));
      FoldTemp(ignoresCase, from, index);
      while At(temp) in disk
        invariant FreePath(disk.Keys, At(temp)) == FreePath(disk.Keys, Path(At(from).dir, TempName(index, At(from).name)))
        decreases WithLength(disk.Keys, |At(temp).name|)
      {
        assert At(temp) in WithLength(disk.Keys, |At(temp).name|) - WithLength(disk.Keys, |At(temp).name| + 1);
        FoldLonger(ignoresCase, temp);
        temp := Path(temp.dir, temp.name + "_");
      }
    }

    /**
     For every plan that passes validation, with swaps, chains, cycles and changes of case only: no rename
     fails half-way, and the result is the planned one exactly when no new path is the temporary path of
     a later entry.  The files then have exactly the names they were to get, and the others keep theirs.
     */
    method ExecuteRenames(plan: seq<Entry>)
      requires HasSources(Contents(disk), FoldPlan(ignoresCase, plan)) && IsSafe(Contents(disk), FoldPlan(ignoresCase, plan))
      modifies this
      ensures var folded := FoldPlan(ignoresCase, plan);
              IsRenamed(Contents(old(disk)), Contents(disk), folded) <==> NoClash(folded, TempPaths(old(disk).Keys, folded, |plan|))
      ensures var folded := FoldPlan(ignoresCase, plan);
              NoClash(folded, TempPaths(old(disk).Keys, folded, |plan|)) ==> IsNamed(old(disk), disk, plan, folded, |plan|)
    {
      ghost var folded := FoldPlan(ignoresCase, plan);
      ghost var before := disk;
      FirstPhaseStarts(disk, plan, folded);
      var temps := ParkAll(plan);
      FirstPhaseEnds(before, disk, plan, folded, FoldAll(ignoresCase, temps));
      UnparkAll(plan, temps, before);
      SecondPhaseEnds(Contents(before), Contents(disk), folded, FoldAll(ignoresCase, temps));
    }

    /** The first phase: every file goes to a temporary path. */
    method ParkAll(plan: seq<Entry>) returns (temps: seq<Path>)
      requires FirstPhase(disk, disk, plan, FoldPlan(ignoresCase, plan), [])
      modifies this
      ensures |temps| == |plan| && FirstPhase(old(disk), disk, plan, FoldPlan(ignoresCase, plan), FoldAll(ignoresCase, temps))
    {
      ghost var folded := FoldPlan(ignoresCase, plan);
      temps := [];
      assert FoldAll(ignoresCase, temps) == [];
      for i := 0 to |plan|
        invariant |temps| == i && FirstPhase(old(disk), disk, plan, folded, FoldAll(ignoresCase, temps))
      {
        ghost var foldedTemps := FoldAll(ignoresCase, temps);
        var temp := ParkFile(i, plan[i].from, old(disk), plan, folded, foldedTemps);
        temps := temps + [temp];
        assert FoldAll(ignoresCase, temps) == foldedTemps + [At(temp)];
      }
    }

    method ParkFile(index: nat, from: Path, ghost start: Disk, ghost plan: seq<Entry>, ghost folded: seq<Entry>, ghost foldedTemps: seq<Path>)
      returns (temp: Path)
      requires FirstPhase(start, disk, plan, folded, foldedTemps)
      requires index == |foldedTemps| < |plan| && At(from) == folded[index].from
      modifies this
      ensures FirstPhase(start, disk, plan, folded, foldedTemps + [At(temp)])
    {
      FirstPhaseOld(start, disk, plan, folded, foldedTemps);
      temp := FreeTempPath(index, from);
      ghost var before := disk;
      Rename(from, temp);
      FirstPhaseOne(start, before, disk, plan, folded, foldedTemps, At(temp));
    }

    /** The second phase: every file goes from its temporary path to its new one. */
    method UnparkAll(plan: seq<Entry>, temps: seq<Path>, ghost start: Disk)
      requires SecondPhase(Contents(start), Contents(disk), FoldPlan(ignoresCase, plan), FoldAll(ignoresCase, temps), 0)
      requires Range(FoldAll(ignoresCase, temps)) !! (start.Keys - Olds(FoldPlan(ignoresCase, plan)))
      requires IsNamed(start, disk, plan, FoldPlan(ignoresCase, plan), 0)
      modifies this
      ensures SecondPhase(Contents(start), Contents(disk), FoldPlan(ignoresCase, plan), FoldAll(ignoresCase, temps), |plan|)
      ensures NoClash(FoldPlan(ignoresCase, plan), FoldAll(ignoresCase, temps)) ==>
                IsNamed(start, disk, plan, FoldPlan(ignoresCase, plan), |plan|)
    {
      ghost var folded, foldedTemps := FoldPlan(ignoresCase, plan), FoldAll(ignoresCase, temps);
      for i := 0 to |plan|
        invariant SecondPhase(Contents(start), Contents(disk), folded, foldedTemps, i)
        invariant NoClash(folded, foldedTemps) ==> IsNamed(start, disk, plan, folded, i)
      {
        UnparkFile(temps[i], plan[i].to, start, plan, folded, foldedTemps, i);
      }
    }

    method UnparkFile(temp: Path, to: Path, ghost start: Disk, ghost plan: seq<Entry>, ghost folded: seq<Entry>, ghost foldedTemps: seq<Path>, ghost k: nat)
      requires k < |plan| == |folded| && SecondPhase(Contents(start), Contents(disk), folded, foldedTemps, k)
      requires NoClash(folded, foldedTemps) ==> IsNamed(start, disk, plan, folded, k)
      requires Range(foldedTemps) !! (start.Keys - Olds(folded))
      requires At(temp) == foldedTemps[k] && to == plan[k].to && At(to) == folded[k].to
      modifies this
      ensures SecondPhase(Contents(start), Contents(disk), folded, foldedTemps, k + 1)
      ensures NoClash(folded, foldedTemps) ==> IsNamed(start, disk, plan, folded, k + 1)
    {
      ghost var before := disk;
      Rename(temp, to);
      SecondPhaseOne(Contents(start), Contents(before), Contents(disk), folded, foldedTemps, k);
      if NoClash(folded, foldedTemps) {
        NameOne(start, before, disk, plan, folded, foldedTemps, k);
      }
    }
  }

  function FoldAll(ignoresCase: bool, paths: seq<Path>): (folded: seq<Path>)
    ensures |folded| == |paths| && forall i :: 0 <= i < |paths| ==> folded[i] == Fold(ignoresCase, paths[i])
  {
    seq(|paths|, i requires 0 <= i < |paths| => Fold(ignoresCase, paths[i]))
  }

  /** After the first |temps| steps of the first phase. */
  ghost predicate FirstPhase(start: Disk, disk: Disk, plan: seq<Entry>, folded: seq<Entry>, temps: seq<Path>) {
    && |temps| <= |plan| == |folded| && temps == TempPaths(start.Keys, folded, |temps|)
    && HasSources(Contents(start), folded) && IsSafe(Contents(start), folded)
    && Parked(Contents(start), Contents(disk), folded, temps) && IsNamed(start, disk, plan, folded, 0)
  }

  lemma {:induction false} FirstPhaseStarts(disk: Disk, plan: seq<Entry>, folded: seq<Entry>)
    requires |plan| == |folded| && HasSources(Contents(disk), folded) && IsSafe(Contents(disk), folded)
    ensures FirstPhase(disk, disk, plan, folded, [])
  {
    assert folded[..0] == [];
  }

  lemma {:induction false} FirstPhaseOld(start: Disk, disk: Disk, plan: seq<Entry>, folded: seq<Entry>, temps: seq<Path>)
    requires FirstPhase(start, disk, plan, folded, temps) && |temps| < |plan|
    ensures folded[|temps|].from in disk
  {
    OldStillThere(Contents(start), Contents(disk), folded, temps);
  }

  lemma {:induction false} FirstPhaseOne(start: Disk, before: Disk, after: Disk, plan: seq<Entry>, folded: seq<Entry>, temps: seq<Path>, temp: Path)
    requires FirstPhase(start, before, plan, folded, temps) && |temps| < |plan| && folded[|temps|].from in before
    requires var from := folded[|temps|].from;
             && temp == FreePath(before.Keys, Path(from.dir, TempName(|temps|, from.name)))
             && Contents(after) == (Contents(before) - {from})[temp := Contents(before)[from]]
             && after.Keys == (before.Keys - {from}) + {temp}
             && forall p :: p in before && p != from && p != temp ==> after[p] == before[p]
    ensures FirstPhase(start, after, plan, folded, temps + [temp])
  {
    ParkOne(Contents(start), Contents(before), Contents(after), folded, temps, temp);
    ParkKeepsNames(start, before, after, plan, folded, |temps|, temp);
    NextTemp(start, before, folded, temps, temp);
  }

  lemma {:induction false} NextTemp(start: Disk, before: Disk, folded: seq<Entry>, temps: seq<Path>, temp: Path)
    requires |temps| < |folded| && temps == TempPaths(start.Keys, folded, |temps|)
    requires ParkedPaths(Contents(start), Contents(before), folded, temps)
    requires var from := folded[|temps|].from; temp == FreePath(before.Keys, Path(from.dir, TempName(|temps|, from.name)))
    ensures temps + [temp] == TempPaths(start.Keys, folded, |temps| + 1)
  {
  }

  lemma {:induction false} FirstPhaseEnds(start: Disk, disk: Disk, plan: seq<Entry>, folded: seq<Entry>, temps: seq<Path>)
    requires FirstPhase(start, disk, plan, folded, temps) && |temps| == |plan|
    ensures SecondPhase(Contents(start), Contents(disk), folded, temps, 0) && Range(temps) !! (start.Keys - Olds(folded))
    ensures IsNamed(start, disk, plan, folded, 0) && temps == TempPaths(start.Keys, folded, |plan|)
  {
    AllParked(Contents(start), Contents(disk), folded, temps);
    assert folded[..|plan|] == folded;
  }

  lemma {:induction false} ParkKeepsNames(start: Disk, before: Disk, after: Disk, plan: seq<Entry>, folded: seq<Entry>, k: nat, temp: Path)
    requires k < |plan| == |folded| && IsNamed(start, before, plan, folded, 0) && temp !in before
    requires folded[k].from in before && after.Keys == (before.Keys - {folded[k].from}) + {temp}
    requires forall p :: p in before && p != folded[k].from && p != temp ==> after[p] == before[p]
    ensures IsNamed(start, after, plan, folded, 0)
  {
    assert folded[k].from in Olds(folded);
  }

  /** The first `k` files have their new names, letter by letter, and the files that stay are as they were. */
  ghost predicate IsNamed(before: Disk, after: Disk, plan: seq<Entry>, folded: seq<Entry>, k: nat)
    requires k <= |plan| == |folded|
  {
    && (forall i :: 0 <= i < k ==> folded[i].to in after && after[folded[i].to].name == plan[i].to)
    && (forall p :: p in before && p !in Olds(folded) ==> p in after && after[p] == before[p])
  }

  lemma {:induction false} NameOne(start: Disk, before: Disk, after: Disk, plan: seq<Entry>, folded: seq<Entry>, temps: seq<Path>, k: nat)
    requires k < |plan| == |folded| == |temps| && IsNamed(start, before, plan, folded, k) && NoClash(folded, temps)
    requires IsSafe(Contents(start), folded) && Range(temps) !! (start.Keys - Olds(folded))
    requires temps[k] in before && after == (before - {temps[k]})[folded[k].to := File(plan[k].to, before[temps[k]].content)]
    ensures IsNamed(start, after, plan, folded, k + 1)
  {
    assert temps[k] in Range(temps);
    forall p | p in start && p !in Olds(folded)
      ensures p in after && after[p] == start[p]
    {
      assert p != temps[k] && p != folded[k].to;
    }
  }

  lemma {:induction false} FoldLonger(ignoresCase: bool, p: Path)
    ensures Fold(ignoresCase, Path(p.dir, p.name + "_")) == Path(Fold(ignoresCase, p).dir, Fold(ignoresCase, p).name + "_")
  {
    LowerConcat(p.name, "_");
    assert Lower("_") == "_";
  }

  lemma {:induction false} FoldTemp(ignoresCase: bool, p: Path, index: nat)
    ensures Fold(ignoresCase, Path(p.dir, TempName(index, p.name)))
         == Path(Fold(ignoresCase, p).dir, TempName(index, Fold(ignoresCase, p).name))
  {
    var head := TEMP_PREFIX + ToText(index) + "__";
    LowerConcat(head, p.name);
    HeadIsLower(index);
  }

  lemma {:induction false} HeadIsLower(index: nat)
    ensures var head := TEMP_PREFIX + ToText(index) + "__"; Lower(head) == head
  {
    var digits := ToText(index);
    DigitsRead(index);
    assert Lower(digits) == digits;
    LowerConcat(TEMP_PREFIX + digits, "__");
    LowerConcat(TEMP_PREFIX, digits);
    assert Lower(TEMP_PREFIX) == TEMP_PREFIX && Lower("__") == "__";
  }

  lemma {:induction false} LowerConcat(a: string, b: string)
    ensures Lower(a + b) == Lower(a) + Lower(b)
  {
  }

  function Range(s: seq<Path>): set<Path> {
    set i | 0 <= i < |s| :: s[i]
  }

  ghost predicate Distinct(s: seq<Path>) {
    forall i, j :: 0 <= i < j < |s| ==> s[i] != s[j]
  }

  /** After the first |temps| steps of the first phase: which paths there are ... */
  ghost predicate ParkedPaths(start: Files, files: Files, plan: seq<Entry>, temps: seq<Path>) {
    && |temps| <= |plan| && Distinct(temps)
    && Range(temps) !! (start.Keys - Olds(plan[..|temps|]))
    && files.Keys == (start.Keys - Olds(plan[..|temps|])) + Range(temps)
  }

  /** ... and what is at them. */
  ghost predicate ParkedContents(start: Files, files: Files, plan: seq<Entry>, temps: seq<Path>) {
    && |temps| <= |plan|
    && (forall i :: 0 <= i < |temps| ==> temps[i] in files && plan[i].from in start && files[temps[i]] == start[plan[i].from])
    && (forall p :: p in start && p !in Olds(plan[..|temps|]) ==> p in files && files[p] == start[p])
  }

  ghost predicate Parked(start: Files, files: Files, plan: seq<Entry>, temps: seq<Path>) {
    ParkedPaths(start, files, plan, temps) && ParkedContents(start, files, plan, temps)
  }

  lemma OldsNext(plan: seq<Entry>, k: nat)
    requires k < |plan|
    ensures Olds(plan[..k + 1]) == Olds(plan[..k]) + {plan[k].from}
  {
    assert forall i :: 0 <= i < k ==> plan[..k + 1][i] == plan[..k][i];
    assert plan[..k + 1][k] == plan[k];
  }

  lemma NewsNext(plan: seq<Entry>, k: nat)
    requires k < |plan|
    ensures News(plan[..k + 1]) == News(plan[..k]) + {plan[k].to}
  {
    assert forall i :: 0 <= i < k ==> plan[..k + 1][i] == plan[..k][i];
    assert plan[..k + 1][k] == plan[k];
  }

  lemma RangeNext(s: seq<Path>, p: Path)
    ensures Range(s + [p]) == Range(s) + {p}
  {
    assert forall i :: 0 <= i < |s| ==> (s + [p])[i] == s[i];
    assert (s + [p])[|s|] == p;
  }

  lemma RangeDrop(s: seq<Path>, k: nat)
    requires k < |s| && Distinct(s)
    ensures Range(s[k..]) == Range(s[k + 1..]) + {s[k]} && s[k] !in Range(s[k + 1..])
  {
    assert s[k..] == [s[k]] + s[k + 1..];
    assert forall i :: 0 <= i < |s[k + 1..]| ==> s[k + 1..][i] == s[k..][1..][i];
    assert s[k..][0] == s[k];
    forall p | p in Range(s[k + 1..])
      ensures p in Range(s[k..]) && p != s[k]
    {
      var i :| 0 <= i < |s[k + 1..]| && s[k + 1..][i] == p;
      assert s[k..][i + 1] == p == s[k + 1 + i];
    }
  }

  lemma OldStillThere(start: Files, files: Files, plan: seq<Entry>, temps: seq<Path>)
    requires HasSources(start, plan) && Parked(start, files, plan, temps) && |temps| < |plan|
    ensures var from := plan[|temps|].from;
            from in files && files[from] == start[from] && from !in Olds(plan[..|temps|]) && from !in Range(temps)
  {
  }

  lemma ParkOne(start: Files, before: Files, after: Files, plan: seq<Entry>, temps: seq<Path>, temp: Path)
    requires HasSources(start, plan) && Parked(start, before, plan, temps) && |temps| < |plan|
    requires temp !in before && plan[|temps|].from in before
    requires after == (before - {plan[|temps|].from})[temp := before[plan[|temps|].from]]
    ensures Parked(start, after, plan, temps + [temp])
  {
    OldStillThere(start, before, plan, temps);
    ParkOnePaths(start, before, after, plan, temps, temp);
    ParkOneContents(start, before, after, plan, temps, temp);
  }

  lemma ParkOnePaths(start: Files, before: Files, after: Files, plan: seq<Entry>, temps: seq<Path>, temp: Path)
    requires ParkedPaths(start, before, plan, temps) && |temps| < |plan|
    requires temp !in before
    requires var from := plan[|temps|].from;
             from in start && from !in Olds(plan[..|temps|]) && from !in Range(temps)
             && after.Keys == (before.Keys - {from}) + {temp}
    ensures ParkedPaths(start, after, plan, temps + [temp])
  {
    var k := |temps|;
    OldsNext(plan, k);
    RangeNext(temps, temp);
    ParkKeys(start.Keys, Olds(plan[..k]), Range(temps), plan[k].from, temp);
    assert forall i :: 0 <= i < k ==> temps[i] in Range(temps);
  }

  lemma ParkOneContents(start: Files, before: Files, after: Files, plan: seq<Entry>, temps: seq<Path>, temp: Path)
    requires ParkedContents(start, before, plan, temps) && |temps| < |plan|
    requires temp !in before
    requires var from := plan[|temps|].from;
             from in start && from in before && before[from] == start[from] && from !in Range(temps)
             && after == (before - {from})[temp := before[from]]
    ensures ParkedContents(start, after, plan, temps + [temp])
  {
    var k := |temps|;
    var more := temps + [temp];
    OldsNext(plan, k);
    forall i | 0 <= i < |more|
      ensures more[i] in after && plan[i].from in start && after[more[i]] == start[plan[i].from]
    {
      if i < k {
        assert more[i] == temps[i];
        assert temps[i] in before && temps[i] in Range(temps);
      }
    }
    forall p | p in start && p !in Olds(plan[..|more|])
      ensures p in after && after[p] == start[p]
    {
      assert p !in Olds(plan[..k]) && p != plan[k].from;
      assert p in before;
    }
  }

  lemma ParkKeys(start: set<Path>, olds: set<Path>, temps: set<Path>, from: Path, temp: Path)
    requires from in start && from !in olds && from !in temps
    requires temps !! (start - olds) && temp !in (start - olds) + temps
    ensures (((start - olds) + temps) - {from}) + {temp} == (start - (olds + {from})) + (temps + {temp})
    ensures (temps + {temp}) !! (start - (olds + {from}))
  {
  }

  /** The temporary paths are apart from each other and from files that stay. */
  ghost predicate Apart(start: Files, plan: seq<Entry>, temps: seq<Path>) {
    Distinct(temps) && Range(temps) !! (start.Keys - Olds(plan))
  }

  /** A file that was put where a later one was parked is moved on with it: its new path ends up without a file. */
  ghost predicate ClashedAreGone(files: Files, plan: seq<Entry>, temps: seq<Path>, k: nat) {
    forall i, j :: 0 <= i < |plan| && i < j < k && j < |temps| && temps[j] == plan[i].to ==> plan[i].to !in files
  }

  lemma AllParked(start: Files, files: Files, plan: seq<Entry>, temps: seq<Path>)
    requires HasSources(start, plan) && IsSafe(start, plan)
    requires Parked(start, files, plan, temps) && |temps| == |plan|
    ensures SecondPhase(start, files, plan, temps, 0)
  {
    assert plan[..|plan|] == plan && temps[0..] == temps && plan[..0] == [];
  }

  /** After `k` steps of the second phase. */
  ghost predicate Unparked(start: Files, files: Files, plan: seq<Entry>, temps: seq<Path>, k: nat) {
    && k <= |plan| == |temps| && Apart(start, plan, temps) && IsSafe(start, plan)
    && files.Keys == (start.Keys - Olds(plan)) + Range(temps[k..]) + News(plan[..k])
    && (forall i :: 0 <= i < k ==> plan[i].from in start && plan[i].to in files && files[plan[i].to] == start[plan[i].from])
    && (forall i :: k <= i < |plan| ==> plan[i].from in start && temps[i] in files && files[temps[i]] == start[plan[i].from])
    && (forall p :: p in start && p !in Olds(plan) ==> p in files && files[p] == start[p])
  }

  lemma NewPathFree(start: Files, files: Files, plan: seq<Entry>, temps: seq<Path>, k: nat)
    requires Unparked(start, files, plan, temps, k) && k < |plan| && NoClash(plan, temps)
    ensures temps[k] in files && (plan[k].to in files ==> plan[k].to == temps[k])
  {
    NewPathApart(start, plan, temps, k);
  }

  lemma NewPathApart(start: Files, plan: seq<Entry>, temps: seq<Path>, k: nat)
    requires k < |plan| == |temps| && IsSafe(start, plan) && NoClash(plan, temps)
    ensures var p := plan[k].to;
            p !in start.Keys - Olds(plan) && p !in News(plan[..k]) && (p in Range(temps[k..]) ==> p == temps[k])
  {
    var p := plan[k].to;
    assert forall i :: 0 <= i < k ==> plan[..k][i].to == plan[i].to != p;
    if p in Range(temps[k..]) {
      var i :| 0 <= i < |temps[k..]| && temps[k..][i] == p;
      assert temps[k + i] == p;
    }
  }

  lemma UnparkOne(start: Files, before: Files, after: Files, plan: seq<Entry>, temps: seq<Path>, k: nat)
    requires Unparked(start, before, plan, temps, k) && k < |plan| && NoClash(plan, temps)
    requires after == (before - {temps[k]})[plan[k].to := before[temps[k]]]
    ensures Unparked(start, after, plan, temps, k + 1)
  {
    NewPathFree(start, before, plan, temps, k);
    assert temps[k] in Range(temps);
    assert News(plan[..k]) <= News(plan) by {
      assert forall i :: 0 <= i < k ==> plan[..k][i] == plan[i];
    }
    UnparkOnePaths(start, before, after, plan, temps, k);
    assert Moved(before, after, temps[k], plan[k].to);
    UnparkOneContents(start, before, after, plan, temps, k);
  }

  lemma UnparkOnePaths(start: Files, before: Files, after: Files, plan: seq<Entry>, temps: seq<Path>, k: nat)
    requires k < |plan| == |temps| && Distinct(temps)
    requires before.Keys == (start.Keys - Olds(plan)) + Range(temps[k..]) + News(plan[..k])
    requires temps[k] !in start.Keys - Olds(plan) && temps[k] !in News(plan[..k])
    requires after.Keys == (before.Keys - {temps[k]}) + {plan[k].to}
    ensures after.Keys == (start.Keys - Olds(plan)) + Range(temps[k + 1..]) + News(plan[..k + 1])
  {
    NewsNext(plan, k);
    RangeDrop(temps, k);
  }

  /** What one rename to a free path does. */
  ghost predicate Moved(before: Files, after: Files, from: Path, to: Path) {
    && from in before && to in after && after[to] == before[from]
    && (forall p :: p in before && p != from ==> p in after && after[p] == before[p])
  }

  lemma UnparkOneContents(start: Files, before: Files, after: Files, plan: seq<Entry>, temps: seq<Path>, k: nat)
    requires Unparked(start, before, plan, temps, k) && k < |plan| && NoClash(plan, temps)
    requires Moved(before, after, temps[k], plan[k].to)
    ensures forall i :: 0 <= i < k + 1 ==> plan[i].from in start && plan[i].to in after && after[plan[i].to] == start[plan[i].from]
    ensures forall i :: k + 1 <= i < |plan| ==> plan[i].from in start && temps[i] in after && after[temps[i]] == start[plan[i].from]
    ensures forall p :: p in start && p !in Olds(plan) ==> p in after && after[p] == start[p]
  {
    assert temps[k] in Range(temps);
    assert forall i :: 0 <= i < k ==> plan[i].to in News(plan);
    UnparkDone(start, before, after, plan, temps[k], k);
    UnparkRest(start, before, after, plan, temps, k);
  }

  lemma UnparkDone(start: Files, before: Files, after: Files, plan: seq<Entry>, temp: Path, k: nat)
    requires k < |plan| && Moved(before, after, temp, plan[k].to)
    requires forall i :: 0 <= i < k ==> plan[i].from in start && plan[i].to in before && before[plan[i].to] == start[plan[i].from]
    requires forall i :: 0 <= i < k ==> plan[i].to != temp
    requires plan[k].from in start && before[temp] == start[plan[k].from]
    ensures forall i :: 0 <= i < k + 1 ==> plan[i].from in start && plan[i].to in after && after[plan[i].to] == start[plan[i].from]
  {
  }

  lemma UnparkRest(start: Files, before: Files, after: Files, plan: seq<Entry>, temps: seq<Path>, k: nat)
    requires k < |plan| == |temps| && Distinct(temps) && Moved(before, after, temps[k], plan[k].to)
    requires forall i :: k <= i < |plan| ==> plan[i].from in start && temps[i] in before && before[temps[i]] == start[plan[i].from]
    ensures forall i :: k + 1 <= i < |plan| ==> plan[i].from in start && temps[i] in after && after[temps[i]] == start[plan[i].from]
  {
  }

  lemma AllUnparked(start: Files, files: Files, plan: seq<Entry>, temps: seq<Path>)
    requires Unparked(start, files, plan, temps, |plan|)
    ensures IsRenamed(start, files, plan)
  {
    assert plan[..|plan|] == plan && temps[|plan|..] == [];
  }

  /** After `k` steps of the second phase, with or without a clash. */
  ghost predicate SecondPhase(start: Files, files: Files, plan: seq<Entry>, temps: seq<Path>, k: nat) {
    && |temps| == |plan| && Distinct(temps) && IsSafe(start, plan)
    && (forall j :: k <= j < |plan| ==> temps[j] in files)
    && ClashedAreGone(files, plan, temps, k)
    && (NoClash(plan, temps) ==> Unparked(start, files, plan, temps, k))
  }

  lemma SecondPhaseOne(start: Files, before: Files, after: Files, plan: seq<Entry>, temps: seq<Path>, k: nat)
    requires SecondPhase(start, before, plan, temps, k) && k < |plan|
    requires after == (before - {temps[k]})[plan[k].to := before[temps[k]]]
    ensures SecondPhase(start, after, plan, temps, k + 1)
  {
    if NoClash(plan, temps) {
      UnparkOne(start, before, after, plan, temps, k);
    }
  }

  lemma SecondPhaseEnds(start: Files, files: Files, plan: seq<Entry>, temps: seq<Path>)
    requires SecondPhase(start, files, plan, temps, |plan|)
    ensures IsRenamed(start, files, plan) <==> NoClash(plan, temps)
  {
    if NoClash(plan, temps) {
      AllUnparked(start, files, plan, temps);
    }
  }

  // ----- consequences -----

  lemma {:induction false} PathCounts(plan: seq<Entry>)
    requires forall i, j :: 0 <= i < j < |plan| ==> plan[i].from != plan[j].from
    requires forall i, j :: 0 <= i < j < |plan| ==> plan[i].to != plan[j].to
    ensures |Olds(plan)| == |plan| && |News(plan)| == |plan|
  {
    if plan != [] {
      var n := |plan| - 1;
      PathCounts(plan[..n]);
      OldsNext(plan, n);
      NewsNext(plan, n);
      assert plan[..n + 1] == plan;
      assert plan[n].from !in Olds(plan[..n]) && plan[n].to !in News(plan[..n]);
    }
  }

  /** As many files as before: nothing was lost under another. */
  lemma RenameLosesNothing(before: Files, after: Files, plan: seq<Entry>)
    requires HasSources(before, plan) && IsSafe(before, plan) && IsRenamed(before, after, plan)
    ensures |after| == |before|
  {
    PathCounts(plan);
    var stay := before.Keys - Olds(plan);
    assert Olds(plan) <= before.Keys;
    assert |stay| == |before.Keys| - |Olds(plan)|;
    assert stay !! News(plan);
    assert |after.Keys| == |stay| + |News(plan)|;
  }

  // ----- when temporary names stay out of the way -----

  /** A class of names that holds every name the search for a temporary name may try. */
  ghost predicate HoldsTemps(names: string -> bool, plan: seq<Entry>) {
    && (forall i, k: nat :: 0 <= i < |plan| ==> names(TempName(k, plan[i].from.name)))
    && (forall name :: names(name) ==> names(name + "_"))
  }

  lemma {:induction false} FreePathStays(names: string -> bool, taken: set<Path>, temp: Path)
    requires names(temp.name) && forall name :: names(name) ==> names(name + "_")
    ensures names(FreePath(taken, temp).name)
    decreases WithLength(taken, |temp.name|)
  {
    if temp in taken {
      assert temp in WithLength(taken, |temp.name|) - WithLength(taken, |temp.name| + 1);
      FreePathStays(names, taken, Path(temp.dir, temp.name + "_"));
    }
  }

  lemma {:induction false} TempPathsStay(names: string -> bool, paths: set<Path>, plan: seq<Entry>, k: nat)
    requires k <= |plan| && HoldsTemps(names, plan)
    ensures forall j :: 0 <= j < k ==> names(TempPaths(paths, plan, k)[j].name)
  {
    if k > 0 {
      TempPathsStay(names, paths, plan, k - 1);
      var temps := TempPaths(paths, plan, k - 1);
      var from := plan[k - 1].from;
      FreePathStays(names, (paths - Olds(plan[..k - 1])) + Range(temps), Path(from.dir, TempName(k - 1, from.name)));
    }
  }

  /** New names outside such a class never clash. */
  lemma {:induction false} ApartNeverClashes(names: string -> bool, paths: set<Path>, plan: seq<Entry>)
    requires HoldsTemps(names, plan) && forall i :: 0 <= i < |plan| ==> !names(plan[i].to.name)
    ensures NoClash(plan, TempPaths(paths, plan, |plan|))
  {
    TempPathsStay(names, paths, plan, |plan|);
  }

  const TEMP_PREFIX := ".__rename_tmp__"

  /** Any plan of new names without the temporary prefix, whatever its swaps and cycles. */
  lemma {:induction false} OrdinaryNamesNeverClash(paths: set<Path>, plan: seq<Entry>)
    requires forall i :: 0 <= i < |plan| ==> !(TEMP_PREFIX <= plan[i].to.name)
    ensures NoClash(plan, TempPaths(paths, plan, |plan|))
  {
    var names := (name: string) => TEMP_PREFIX <= name;
    forall i, k: nat | 0 <= i < |plan|
      ensures names(TempName(k, plan[i].from.name))
    {
      assert TempName(k, plan[i].from.name) == TEMP_PREFIX + (ToText(k) + "__" + plan[i].from.name);
    }
    ApartNeverClashes(names, paths, plan);
  }

  /** What the names of selected files and their temporary names have and no new name has: a capital, or an end that is not .hpp. */
  predicate Marked(mode: Mode, name: string) {
    match mode
    case PascalToSnakeMode => HasUpper(name)
    case HToHpp => name != "" && name[|name| - 1] != 'p'
  }

  lemma NewNameIsNotMarked(mode: Mode, name: string)
    requires Selects(mode, name)
    ensures !Marked(mode, NewName(mode, name))
  {
    match mode
    case PascalToSnakeMode =>
      LowerHasNoUpper(BreakWords(BreakAcronyms(Stem(name), 0), 0));
      UpperOfConcat(PascalToSnake(Stem(name)), Suffix(name));
    case HToHpp =>
  }

  lemma SelectedIsMarked(mode: Mode, name: string)
    requires Selects(mode, name)
    ensures Marked(mode, name)
  {
    match mode
    case PascalToSnakeMode =>
      UpperOfConcat(Stem(name), Suffix(name));
      assert name == Stem(name) + Suffix(name);
    case HToHpp =>
      assert name[|name| - 1] == Suffix(name)[|Suffix(name)| - 1];
  }

  lemma MarkStays(mode: Mode, name: string, before: string)
    requires Marked(mode, name)
    ensures Marked(mode, before + name) && Marked(mode, name + "_")
  {
    UpperOfConcat(before, name);
    UpperOfConcat(name, "_");
  }

  lemma PlanIsApart(mode: Mode, files: Files, plan: seq<Entry>, names: string -> bool)
    requires IsPlan(mode, files, plan) && forall name :: names(name) == Marked(mode, name)
    ensures HoldsTemps(names, plan)
    ensures forall i :: 0 <= i < |plan| ==> names(plan[i].from.name) && !names(plan[i].to.name)
  {
    forall i | 0 <= i < |plan|
      ensures names(plan[i].from.name) && !names(plan[i].to.name)
    {
      SelectedIsMarked(mode, plan[i].from.name);
      NewNameIsNotMarked(mode, plan[i].from.name);
    }
    forall i, k: nat | 0 <= i < |plan|
      ensures names(TempName(k, plan[i].from.name))
    {
      MarkStays(mode, plan[i].from.name, TEMP_PREFIX + ToText(k) + "__");
    }
    forall name | names(name)
      ensures names(name + "_")
    {
      MarkStays(mode, name, "");
    }
  }

  /** The script's own plans never clash, and hold no swap, chain or cycle: no new path is an old one. */
  lemma {:induction false} PlannersNeverClash(mode: Mode, files: Files, plan: seq<Entry>)
    requires IsPlan(mode, files, plan)
    ensures HasSources(files, plan) && NoClash(plan, TempPaths(files.Keys, plan, |plan|))
    ensures Olds(plan) !! News(plan)
  {
    var names := (name: string) => Marked(mode, name);
    PlanIsApart(mode, files, plan, names);
    ApartNeverClashes(names, files.Keys, plan);
  }

  // ----- disks that ignore letter case -----

  predicate SameUpToCase(p: Path, q: Path) {
    Lower(p.dir) == Lower(q.dir) && Lower(p.name) == Lower(q.name)
  }

  /** There is a file at the path, or at one that differs only in case. */
  ghost predicate Taken(files: Files, p: Path) {
    exists q :: q in files && SameUpToCase(q, p)
  }

  ghost predicate IgnoresCase(lexists: Path -> bool, files: Files) {
    forall p :: lexists(p) <==> Taken(files, p)
  }

  /**
   On a disk that ignores letter case, with paths that compare with it, a plan of either planner passes validation exactly when its new paths
   are distinct and differ by more than case from every file there is, those to be renamed included.
   */
  lemma CaseBlindExactly(mode: Mode, files: Files, plan: seq<Entry>, lexists: Path -> bool)
    requires IsPlan(mode, files, plan) && IgnoresCase(lexists, files)
    ensures Passes(false, lexists, plan) <==>
              && (forall i, j :: 0 <= i < j < |plan| ==> plan[i].to != plan[j].to)
              && (forall i :: 0 <= i < |plan| ==> !Taken(files, plan[i].to))
  {
    PlannersNeverClash(mode, files, plan);
    NewsAreNotOlds(plan);
  }

  lemma NewsAreNotOlds(plan: seq<Entry>)
    requires Olds(plan) !! News(plan)
    ensures forall i :: 0 <= i < |plan| ==> plan[i].to !in Olds(plan)
  {
    assert forall i :: 0 <= i < |plan| ==> plan[i].to in News(plan);
  }

  /** So a rename that only changes case is refused there, which is what the two phases are for, if paths compare with case. */
  lemma CaseOnlyRenameRefused(files: Files, plan: seq<Entry>, i: nat, lexists: Path -> bool)
    requires IsPlan(PascalToSnakeMode, files, plan) && i < |plan| && plan[i].to.name == Lower(plan[i].from.name)
    requires IgnoresCase(lexists, files)
    ensures !Passes(false, lexists, plan)
  {
    CaseBlindExactly(PascalToSnakeMode, files, plan, lexists);
    LowerTwice(plan[i].from.name);
    assert SameUpToCase(plan[i].from, plan[i].to);
  }

  /**
   Where paths compare without case as well, a plan of renames that only change case is safe, so it passes
   validation, and does not clash unless a file is named like a temporary one; executing it then gives each
   file its new name and its own content.
   */
  lemma {:induction false} CaseOnlyPlanWorks(files: Files, plan: seq<Entry>, folded: seq<Entry>, lexists: Path -> bool)
    requires folded == FoldPlan(true, plan) && HasSources(files, folded)
    requires forall i :: 0 <= i < |folded| ==> folded[i].from == folded[i].to && !(TEMP_PREFIX <= folded[i].to.name)
    requires forall p :: lexists(p) <==> Fold(true, p) in files
    ensures Passes(true, lexists, plan) && IsSafe(files, folded) && NoClash(folded, TempPaths(files.Keys, folded, |folded|))
  {
    assert forall i :: 0 <= i < |folded| ==> folded[i].from in Olds(folded);
    assert IsSafe(files, folded);
    PassesIsSafe(true, lexists, files, plan);
    OrdinaryNamesNeverClash(files.Keys, folded);
  }

  /** For such a plan the planned result is that every content stays where it is, up to case. */
  lemma {:induction false} CaseOnlyPlanKeepsContents(files: Files, folded: seq<Entry>, after: Files)
    requires HasSources(files, folded) && forall i :: 0 <= i < |folded| ==> folded[i].from == folded[i].to
    ensures IsRenamed(files, after, folded) <==> after == files
  {
    assert Olds(folded) == News(folded) && Olds(folded) <= files.Keys;
    if IsRenamed(files, after, folded) {
      forall p | p in files
        ensures p in after && after[p] == files[p]
      {
        if p in Olds(folded) {
          var i :| 0 <= i < |folded| && folded[i].from == p;
          assert after[folded[i].to] == files[folded[i].from];
        }
      }
      assert after.Keys == files.Keys;
    }
  }

  // ----- swaps and cycles -----

  /** Swapping any two files passes validation, never clashes, and exchanges their contents. */
  lemma SwapExchanges(before: Files, a: Path, b: Path, after: Files)
    requires a in before && b in before && a != b
    ensures var plan := [Entry(a, b), Entry(b, a)];
            && HasSources(before, plan) && IsSafe(before, plan)
            && NoClash(plan, TempPaths(before.Keys, plan, 2))
            && (IsRenamed(before, after, plan) <==> after == before[a := before[b]][b := before[a]])
  {
    var plan := [Entry(a, b), Entry(b, a)];
    assert plan[0].from in Olds(plan) && plan[1].from in Olds(plan);
    assert Olds(plan) == {a, b} == News(plan) by {
      assert plan[0].to in News(plan) && plan[1].to in News(plan);
    }
    var temps := TempPaths(before.Keys, plan, 1);
    assert plan[..1] == [Entry(a, b)];
    assert TempPaths(before.Keys, plan, 2)[1] == TempPath(before.Keys, plan, temps);
    assert b in (before.Keys - Olds(plan[..1])) + Range(temps);
    SwapContents(before, a, b, plan, after);
  }

  lemma {:induction false} SwapContents(before: Files, a: Path, b: Path, plan: seq<Entry>, after: Files)
    requires a in before && b in before && a != b && plan == [Entry(a, b), Entry(b, a)]
    requires Olds(plan) == {a, b} == News(plan)
    ensures IsRenamed(before, after, plan) <==> after == before[a := before[b]][b := before[a]]
  {
    if IsRenamed(before, after, plan) {
      RenamedIsSwapped(before, after, plan, a, b);
    }
    if IsSwapped(before, after, a, b) {
      SwappedIsRenamed(before, after, plan, a, b);
    }
    SwappedIsMap(before, after, a, b);
  }

  lemma {:induction false} RenamedIsSwapped(before: Files, after: Files, plan: seq<Entry>, a: Path, b: Path)
    requires plan == [Entry(a, b), Entry(b, a)] && Olds(plan) == {a, b} == News(plan) && IsRenamed(before, after, plan)
    ensures IsSwapped(before, after, a, b)
  {
    assert plan[0].from == a && plan[0].to == b && plan[1].from == b && plan[1].to == a;
    assert after[plan[0].to] == before[plan[0].from] && after[plan[1].to] == before[plan[1].from];
    forall p | p in before && p != a && p != b
      ensures after[p] == before[p]
    {
      assert p !in Olds(plan);
    }
  }

  lemma {:induction false} SwappedIsRenamed(before: Files, after: Files, plan: seq<Entry>, a: Path, b: Path)
    requires plan == [Entry(a, b), Entry(b, a)] && Olds(plan) == {a, b} == News(plan) && IsSwapped(before, after, a, b)
    ensures IsRenamed(before, after, plan)
  {
    assert plan[0] == Entry(a, b) && plan[1] == Entry(b, a);
  }

  ghost predicate IsSwapped(before: Files, after: Files, a: Path, b: Path) {
    && a in before && b in before && after.Keys == (before.Keys - {a, b}) + {a, b}
    && after[b] == before[a] && after[a] == before[b] && forall p :: p in before && p != a && p != b ==> after[p] == before[p]
  }

  lemma {:induction false} SwappedIsMap(before: Files, after: Files, a: Path, b: Path)
    requires a in before && b in before && a != b
    ensures IsSwapped(before, after, a, b) <==> after == before[a := before[b]][b := before[a]]
  {
    var swapped := before[a := before[b]][b := before[a]];
    assert swapped.Keys == before.Keys == (before.Keys - {a, b}) + {a, b};
  }

  /** A cycle of three files, one of them named like a temporary file: the code loses a file. */
  lemma CycleThroughTempName()
    ensures var t, b, c := Path("d", TempName(2, "c")), Path("d", "b"), Path("d", "c");
            var files := map[t := "1", b := "2", c := "3"];
            var plan := [Entry(t, c), Entry(b, t), Entry(c, b)];
            && HasSources(files, plan) && IsSafe(files, plan)
            && !NoClash(plan, TempPaths(files.Keys, plan, 3))
  {
    var t, b, c := Path("d", TempName(2, "c")), Path("d", "b"), Path("d", "c");
    var plan := [Entry(t, c), Entry(b, t), Entry(c, b)];
    var files := map[t := "1", b := "2", c := "3"];
    assert plan[0].from in Olds(plan) && plan[1].from in Olds(plan) && plan[2].from in Olds(plan);
    var t0, t1 := Path("d", TempName(0, t.name)), Path("d", TempName(1, "b"));
    assert t0.name[|t0.name| - 1] == 'c' && t1.name[|t1.name| - 1] == 'b' && t.name[|t.name| - 1] == 'c';
    assert plan[..0] == [] && plan[..1] == [plan[0]] && plan[..2] == [plan[0], plan[1]];
    assert TempPaths(files.Keys, plan, 1) == [t0];
    assert TempPaths(files.Keys, plan, 2) == [t0, t1];
    assert TempPaths(files.Keys, plan, 3)[2] == t;
  }
}
