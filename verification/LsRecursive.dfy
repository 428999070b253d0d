/**
 The descent of `ls -R` over a directory graph that may have cycles, with its in-place
 stack of the directories on the current path.
 */
module LsRecursive {
  import opened Words

  datatype Id = Id(dev: nat, ino: nat)

  /** A directory entry: what stat, or lstat where links are not followed, told about it. */
  datatype Entry = Entry(name: string, id: Id, dir: bool)

  /** The directories that can be opened, each with its entries in the order they are listed. */
  type Fs = map<Id, seq<Entry>>

  /** -a, -A and -R */
  datatype Flags = Flags(all: bool, almost: bool, recurse: bool)

  /** What is written: a listing, or a warning that directory `id` is on the way down already, each with the directories
      it was reached through; or that one cannot be opened. */
  datatype Out =
    | Listing(trail: seq<Id>, title: Option<string>, names: seq<string>)
    | Loop(trail: seq<Id>, id: Id, path: string)
    | Unreadable(path: string)

  predicate Dots(name: string) { name == "." || name == ".." }

  predicate Visible(name: string, flags: Flags) {
    if Dots(name) then flags.all
    else if name != "" && name[0] == '.' then flags.all || flags.almost
    else true
  }

  function Shown(es: seq<Entry>, flags: Flags): seq<Entry> {
    if es == [] then []
    else (if Visible(es[0].name, flags) then [es[0]] else []) + Shown(es[1..], flags)
  }

  function Names(es: seq<Entry>): seq<string> {
    if es == [] then [] else [es[0].name] + Names(es[1..])
  }

  function Strip(dir: string): string {
    if |dir| > 1 && dir[|dir| - 1] == '/' then Strip(dir[..|dir| - 1]) else dir
  }

  /** joinpath */
  function Join(dir: string, name: string): string { Strip(dir) + "/" + name }

  /** Which names are listed: with -a all of them, with -A all but the two dots, otherwise those that start with no
      dot. */
  lemma VisibleExact(name: string, flags: Flags)
    ensures Visible(name, flags) <==>
              if flags.all then true
              else if flags.almost then name != "." && name != ".."
              else !("." <= name)
  {
  }

  /** A listing is made entry by entry, in order. */
  lemma {:induction false} ShownAppend(a: seq<Entry>, b: seq<Entry>, flags: Flags)
    ensures Shown(a + b, flags) == Shown(a, flags) + Shown(b, flags)
    ensures |b| == 1 ==> Shown(b, flags) == if Visible(b[0].name, flags) then b else []
  {
    hide Visible;
    if a == [] {
      assert a + b == b;
    } else {
      assert (a + b)[1..] == a[1..] + b;
      ShownAppend(a[1..], b, flags);
    }
  }

  lemma {:induction false} NamesExact(es: seq<Entry>)
    ensures |Names(es)| == |es| && forall i :: 0 <= i < |es| ==> Names(es)[i] == es[i].name
  {
    if es != [] { NamesExact(es[1..]); }
  }

  /** A path is the directory's without the slashes at its end, but for a first one, then one slash and the name. */
  lemma {:induction false} JoinExact(dir: string, name: string) returns (n: nat)
    ensures n <= |dir| && Join(dir, name) == dir[..n] + "/" + name
    ensures forall i :: n <= i < |dir| ==> dir[i] == '/'
    ensures n <= 1 || dir[n - 1] != '/'
    ensures dir != "" ==> n >= 1
  {
    n := |dir|;
    if |dir| > 1 && dir[|dir| - 1] == '/' {
      n := JoinExact(dir[..|dir| - 1], name);
      assert dir[..|dir| - 1][..n] == dir[..n];
    } else {
      assert dir[..n] == dir;
    }
  }

  predicate Descends(e: Entry) { e.dir && !Dots(e.name) }

  // ---------------------------------------------------------------- specification

  /** How many directories are not on the trail. */
  ghost function Left(fs: Fs, trail: seq<Id>): nat { |set k | k in fs.Keys && k !in trail| }

  lemma LeftFalls(fs: Fs, trail: seq<Id>, id: Id)
    requires id !in trail
    ensures if id in fs then Left(fs, trail + [id]) < Left(fs, trail) else Left(fs, trail + [id]) == Left(fs, trail)
  {
    var before := set k | k in fs.Keys && k !in trail;
    var after := set k | k in fs.Keys && k !in trail + [id];
    assert after == before - {id};
  }

  /** What listdir writes for the directory at the end of the trail. */
  ghost function Walk(fs: Fs, flags: Flags, trail: seq<Id>, path: string, title: Option<string>): seq<Out>
    requires trail != []
    decreases Left(fs, trail), if trail[|trail| - 1] in fs then 2 else 0, 0
  {
    var id := trail[|trail| - 1];
    if id !in fs then [Unreadable(path)]
    else
      var es := Shown(fs[id], flags);
      [Listing(trail, title, Names(es))] + if flags.recurse then Below(fs, flags, trail, path, es) else []
  }

  /** What it writes for the entries es of that directory. */
  ghost function Below(fs: Fs, flags: Flags, trail: seq<Id>, path: string, es: seq<Entry>): seq<Out>
    requires trail != []
    decreases Left(fs, trail), 1, |es|
  {
    if es == [] then []
    else Entered(fs, flags, trail, path, es[0]) + Below(fs, flags, trail, path, es[1..])
  }

  /** One entry: descended into unless it is no directory, `.`, `..` or already on the trail. */
  ghost function Entered(fs: Fs, flags: Flags, trail: seq<Id>, path: string, e: Entry): seq<Out>
    requires trail != []
    decreases Left(fs, trail), 1, 0
  {
    var path' := Join(path, e.name);
    if !Descends(e) then []
    else if e.id in trail then [Loop(trail, e.id, path')]
    else
      LeftFalls(fs, trail, e.id);
      Walk(fs, flags, trail + [e.id], path', Some(path'))
  }

  // ---------------------------------------------------------------- what is listed

  /** A listing reached through exactly the directories of t, or there a warning about `id`. */
  datatype Mark = Listed(t: seq<Id>) | Warned(t: seq<Id>, id: Id)

  predicate Marks(o: Out, k: Mark) {
    match k
    case Listed(t) => o.Listing? && o.trail == t
    case Warned(t, id) => o.Loop? && o.trail == t && o.id == id
  }

  ghost predicate Has(out: seq<Out>, k: Mark) {
    out != [] && (Marks(out[0], k) || Has(out[1..], k))
  }

  lemma {:induction false} HasAppend(a: seq<Out>, b: seq<Out>, k: Mark)
    ensures Has(a + b, k) == (Has(a, k) || Has(b, k))
  {
    if a == [] {
      assert a + b == b;
    } else {
      assert (a + b)[1..] == a[1..] + b;
      HasAppend(a[1..], b, k);
    }
  }

  /** Where the entries es lead down to. */
  ghost function Targets(es: seq<Entry>): set<Id> { set e | e in es && Descends(e) :: e.id }

  ghost function Subdirs(fs: Fs, flags: Flags, id: Id): set<Id> {
    if id in fs then Targets(Shown(fs[id], flags)) else {}
  }

  /** t goes on from trail p along visible subdirectories, never back onto itself, to a directory that opens. */
  ghost predicate Extends(fs: Fs, flags: Flags, p: seq<Id>, t: seq<Id>)
    requires p != []
  {
    && p <= t && t[|t| - 1] in fs
    && forall i :: |p| <= i < |t| ==> t[i] in Subdirs(fs, flags, t[i - 1]) && t[i] !in t[..i]
  }

  /** What is listed below a trail: that directory, and what extends it by an entry not on it. */
  lemma ExtendsStep(fs: Fs, flags: Flags, p: seq<Id>, t: seq<Id>)
    requires p != [] && p < t
    ensures var id := t[|p|];
            Extends(fs, flags, p, t) <==>
              id in Subdirs(fs, flags, p[|p| - 1]) && id !in p && Extends(fs, flags, p + [id], t)
  {
    var q := p + [t[|p|]];
    assert t[..|p|] == p && t[..|p| + 1] == q && q <= t;
  }

  /** What -R is to write below trail p: listings for the trails that go on from it, and on them a warning about each
      subdirectory that leads back. */
  ghost predicate Due(fs: Fs, flags: Flags, p: seq<Id>, k: Mark)
    requires p != []
  {
    Extends(fs, flags, p, k.t) && (k.Warned? ==> k.id in Subdirs(fs, flags, k.t[|k.t| - 1]) && k.id in k.t)
  }

  /** A directory is listed with -R exactly through every simple path of visible subdirectories, and a warning is
      written exactly where one leads back onto its own path. */
  lemma {:induction false} WalkLists(fs: Fs, flags: Flags, p: seq<Id>, path: string, title: Option<string>, k: Mark)
    requires p != [] && flags.recurse
    ensures Has(Walk(fs, flags, p, path, title), k) == Due(fs, flags, p, k)
    decreases Left(fs, p), if p[|p| - 1] in fs then 2 else 0, 0
  {
    var id := p[|p| - 1];
    if id !in fs {
      if p < k.t { ExtendsStep(fs, flags, p, k.t); }
    } else {
      var es := Shown(fs[id], flags);
      var self := [Listing(p, title, Names(es))];
      assert Walk(fs, flags, p, path, title) == self + Below(fs, flags, p, path, es);
      HasAppend(self, Below(fs, flags, p, path, es), k);
      assert self[1..] == [];
      BelowLists(fs, flags, p, path, es, k);
      if p < k.t { ExtendsStep(fs, flags, p, k.t); }
    }
  }

  /** The part of Due that the entries es of the last directory of p account for. */
  ghost predicate DueBelow(fs: Fs, flags: Flags, p: seq<Id>, ids: set<Id>, k: Mark)
    requires p != []
  {
    || (p < k.t && k.t[|p|] in ids && k.t[|p|] !in p && Due(fs, flags, p + [k.t[|p|]], k))
    || (k.Warned? && k.t == p && k.id in ids && k.id in p)
  }

  lemma {:induction false} BelowLists(fs: Fs, flags: Flags, p: seq<Id>, path: string, es: seq<Entry>, k: Mark)
    requires p != [] && flags.recurse
    ensures Has(Below(fs, flags, p, path, es), k) == DueBelow(fs, flags, p, Targets(es), k)
    decreases Left(fs, p), 1, |es|
  {
    if es != [] {
      EnteredLists(fs, flags, p, path, es[0], k);
      BelowLists(fs, flags, p, path, es[1..], k);
      HasAppend(Entered(fs, flags, p, path, es[0]), Below(fs, flags, p, path, es[1..]), k);
      TargetsStep(es);
    }
  }

  lemma TargetsStep(es: seq<Entry>)
    requires es != []
    ensures Targets(es) == Targets([es[0]]) + Targets(es[1..])
    ensures Targets([es[0]]) == if Descends(es[0]) then {es[0].id} else {}
  {
    assert es == [es[0]] + es[1..];
    assert forall e :: e in [es[0]] <==> e == es[0];
  }

  lemma {:induction false} EnteredLists(fs: Fs, flags: Flags, p: seq<Id>, path: string, e: Entry, k: Mark)
    requires p != [] && flags.recurse
    ensures Has(Entered(fs, flags, p, path, e), k) == DueBelow(fs, flags, p, if Descends(e) then {e.id} else {}, k)
    decreases Left(fs, p), 1, 0
  {
    if Descends(e) && e.id !in p {
      LeftFalls(fs, p, e.id);
      WalkLists(fs, flags, p + [e.id], Join(path, e.name), Some(Join(path, e.name)), k);
      if p + [e.id] <= k.t { assert k.t[|p|] == e.id; }
    } else if Descends(e) {
      var o := Loop(p, e.id, Join(path, e.name));
      assert Entered(fs, flags, p, path, e) == [o] && [o][1..] == [];
    }
  }

  predicate Distinct(s: seq<Id>) { forall i, j :: 0 <= i < j < |s| ==> s[i] != s[j] }

  /** c leads from its first directory to its last along visible subdirectories. */
  ghost predicate Chain(fs: Fs, flags: Flags, c: seq<Id>) {
    c != [] && forall i :: 0 < i < |c| ==> c[i] in Subdirs(fs, flags, c[i - 1])
  }

  /** A chain with its cycles cut out. */
  lemma {:induction false} Shortcut(fs: Fs, flags: Flags, c: seq<Id>) returns (t: seq<Id>)
    requires Chain(fs, flags, c)
    ensures Chain(fs, flags, t) && t[0] == c[0] && t[|t| - 1] == c[|c| - 1] && Distinct(t)
    decreases |c|
  {
    var n := |c| - 1;
    if n == 0 {
      t := c;
    } else {
      var id := c[n];
      var s := Shortcut(fs, flags, c[..n]);
      if id in s {
        var j :| 0 <= j < |s| && s[j] == id;
        t := s[..j + 1];
      } else {
        t := s + [id];
      }
    }
  }

  /** Every directory that can be reached and opened is listed, however the graph loops. */
  lemma ReachableListed(fs: Fs, flags: Flags, c: seq<Id>, path: string, title: Option<string>) returns (t: seq<Id>)
    requires flags.recurse && Chain(fs, flags, c) && c[|c| - 1] in fs
    ensures t != [] && t[|t| - 1] == c[|c| - 1] && Has(Walk(fs, flags, [c[0]], path, title), Listed(t))
  {
    t := Shortcut(fs, flags, c);
    WalkLists(fs, flags, [c[0]], path, title, Listed(t));
  }

  /** The paths down from directory id that do not cross themselves and end at a directory that opens. */
  ghost predicate Path(fs: Fs, flags: Flags, id: Id, t: seq<Id>) {
    Chain(fs, flags, t) && t[0] == id && Distinct(t) && t[|t| - 1] in fs
  }

  lemma PathIsExtension(fs: Fs, flags: Flags, id: Id, t: seq<Id>)
    ensures Extends(fs, flags, [id], t) <==> Path(fs, flags, id, t)
  {
    if Extends(fs, flags, [id], t) {
      forall i, j | 0 <= i < j < |t| ensures t[i] != t[j] { assert t[i] in t[..j]; }
    }
  }

  /** The listings are exactly those of these paths. */
  lemma ListedExactly(fs: Fs, flags: Flags, id: Id, path: string, title: Option<string>, t: seq<Id>)
    requires flags.recurse
    ensures Has(Walk(fs, flags, [id], path, title), Listed(t)) <==> Path(fs, flags, id, t)
  {
    WalkLists(fs, flags, [id], path, title, Listed(t));
    PathIsExtension(fs, flags, id, t);
  }

  /** The warnings are exactly for the subdirectories that lead from such a path back onto it. */
  lemma WarnedExactly(fs: Fs, flags: Flags, id: Id, path: string, title: Option<string>, t: seq<Id>, back: Id)
    requires flags.recurse
    ensures Has(Walk(fs, flags, [id], path, title), Warned(t, back))
            <==> Path(fs, flags, id, t) && back in Subdirs(fs, flags, t[|t| - 1]) && back in t
  {
    WalkLists(fs, flags, [id], path, title, Warned(t, back));
    PathIsExtension(fs, flags, id, t);
  }

  // ---------------------------------------------------------------- what is said

  /** x is the path of the last directory of t, going down to it from the one at the end of trail p, whose path is
      `path`. */
  ghost predicate Leads(fs: Fs, flags: Flags, p: seq<Id>, path: string, t: seq<Id>, x: string)
    requires p != []
    decreases |t| - |p|
  {
    if t == p then x == path
    else p < t && p[|p| - 1] in fs && exists e ::
        e in Shown(fs[p[|p| - 1]], flags) && e.dir && !Dots(e.name) && e.id == t[|p|] &&
        Leads(fs, flags, p + [e.id], Join(path, e.name), t, x)
  }

  /** A listing names the visible entries of the directory it was reached for, under that directory's path, or under the
      title given for the first; a warning is for an entry of such a directory that is on the way down, and an error
      for a directory that does not open. */
  ghost predicate Says(fs: Fs, flags: Flags, p: seq<Id>, path: string, title: Option<string>, o: Out)
    requires p != []
  {
    match o
    case Listing(t, title', names) =>
      && t != [] && t[|t| - 1] in fs && names == Names(Shown(fs[t[|t| - 1]], flags))
      && if t == p then title' == title else title'.Some? && Leads(fs, flags, p, path, t, title'.value)
    case Loop(t, id, x) =>
      && t != [] && t[|t| - 1] in fs && id in t
      && exists e, y :: e in Shown(fs[t[|t| - 1]], flags) && e.id == id && Leads(fs, flags, p, path, t, y)
                        && x == Join(y, e.name)
    case Unreadable(x) => exists t :: Leads(fs, flags, p, path, t, x) && t[|t| - 1] !in fs
  }

  /** What is said one level down is said one level up. */
  lemma SaysAbove(fs: Fs, flags: Flags, p: seq<Id>, path: string, title: Option<string>, e: Entry, o: Out)
    requires p != [] && p[|p| - 1] in fs && e in Shown(fs[p[|p| - 1]], flags) && Descends(e) && e.id !in p
    requires var path' := Join(path, e.name); Says(fs, flags, p + [e.id], path', Some(path'), o)
    ensures Says(fs, flags, p, path, title, o)
  {
    hide Shown, Names, Join;
    var q, path' := p + [e.id], Join(path, e.name);
    forall t, x | Leads(fs, flags, q, path', t, x) ensures Leads(fs, flags, p, path, t, x) && t != p {
      assert q <= t && t[|p|] == e.id;
    }
    match o
    case Listing(t, _, _) =>
      if t == q { assert Leads(fs, flags, q, path', t, path'); }
    case Loop(_, _, _) =>
    case Unreadable(_) =>
  }

  /** Everything listdir writes is of that kind. */
  lemma {:induction false} WalkSays(fs: Fs, flags: Flags, p: seq<Id>, path: string, title: Option<string>, o: Out)
    requires p != [] && o in Walk(fs, flags, p, path, title)
    ensures Says(fs, flags, p, path, title, o)
    decreases Left(fs, p), if p[|p| - 1] in fs then 2 else 0, 0
  {
    hide Names, Join;
    assert Leads(fs, flags, p, path, p, path);
    var id := p[|p| - 1];
    if id in fs && o != Listing(p, title, Names(Shown(fs[id], flags))) {
      BelowSays(fs, flags, p, path, title, Shown(fs[id], flags), o);
    }
  }

  lemma {:induction false} BelowSays(fs: Fs, flags: Flags, p: seq<Id>, path: string, title: Option<string>,
      es: seq<Entry>, o: Out)
    requires p != [] && p[|p| - 1] in fs && o in Below(fs, flags, p, path, es)
    requires forall e :: e in es ==> e in Shown(fs[p[|p| - 1]], flags)
    ensures Says(fs, flags, p, path, title, o)
    decreases Left(fs, p), 1, |es|
  {
    hide Says, Shown, Names, Join;
    assert es[0] in es && forall e :: e in es[1..] ==> e in es;
    if o in Entered(fs, flags, p, path, es[0]) {
      EnteredSays(fs, flags, p, path, title, es[0], o);
    } else {
      BelowSays(fs, flags, p, path, title, es[1..], o);
    }
  }

  lemma {:induction false} EnteredSays(fs: Fs, flags: Flags, p: seq<Id>, path: string, title: Option<string>, e: Entry,
      o: Out)
    requires p != [] && p[|p| - 1] in fs && o in Entered(fs, flags, p, path, e)
    requires e in Shown(fs[p[|p| - 1]], flags)
    ensures Says(fs, flags, p, path, title, o)
    decreases Left(fs, p), 1, 0
  {
    hide Shown, Names, Join;
    if e.id in p {
      assert Leads(fs, flags, p, path, p, path);
    } else {
      LeftFalls(fs, p, e.id);
      WalkSays(fs, flags, p + [e.id], Join(path, e.name), Some(Join(path, e.name)), o);
      SaysAbove(fs, flags, p, path, title, e, o);
    }
  }

  /** Without -R each operand gives one listing of its visible names, or one error. */
  lemma {:induction false} OneEach(fs: Fs, flags: Flags, dirs: seq<(string, Id)>, wantHeader: bool, i: nat)
    requires !flags.recurse && i < |dirs|
    ensures var out, (path, id) := Operands(fs, flags, dirs, wantHeader), dirs[i];
            && |out| == |dirs|
            && out[i] == if id !in fs then Unreadable(path)
                         else Listing([id], if wantHeader then Some(path) else None, Names(Shown(fs[id], flags)))
  {
    if |dirs| > 1 { OneEach(fs, flags, dirs[1..], wantHeader, if i == 0 then 0 else i - 1); }
  }

  // ---------------------------------------------------------------- the program

  class Lister {
    const fs: Fs
    const flags: Flags
    var stack: array<Id>
    var stackn: nat
    var out: seq<Out>

    constructor (fs: Fs, flags: Flags)
      ensures Valid() && fresh(stack) && Trail() == [] && out == [] && this.fs == fs && this.flags == flags
    {
      this.fs, this.flags := fs, flags;
      stack := new Id[0];
      stackn, out := 0, [];
    }

    ghost predicate Valid()
      reads this, stack
    {
      stackn <= stack.Length && Distinct(stack[..stackn])
    }

    /** The directories on the current descent path. */
    ghost function Trail(): seq<Id>
      requires Valid()
      reads this, stack
    {
      stack[..stackn]
    }

    /** pushvisit */
    method PushVisit(id: Id) returns (ok: bool)
      requires Valid()
      modifies this`stack, this`stackn, stack
      ensures Valid() && (stack == old(stack) || fresh(stack))
      ensures ok == (id !in old(Trail()))
      ensures Trail() == if ok then old(Trail()) + [id] else old(Trail())
    {
      var i := 0;
      while i < stackn
        invariant 0 <= i <= stackn && forall k :: 0 <= k < i ==> stack[k] != id
      {
        if stack[i] == id {
          assert stack[..stackn][i] == id;
          return false;
        }
        i := i + 1;
      }
      if stackn == stack.Length {
        var bigger := new Id[if stack.Length == 0 then 8 else stack.Length * 2];
        forall k | 0 <= k < stackn { bigger[k] := stack[k]; }
        stack := bigger;
      }
      stack[stackn] := id;
      stackn := stackn + 1;
      assert stack[..stackn] == old(stack[..stackn]) + [id];
      return true;
    }

    /** popvisit */
    method PopVisit()
      requires Valid() && stackn > 0
      modifies this`stackn
      ensures Valid() && Trail() == old(Trail())[..old(stackn) - 1]
    {
      stackn := stackn - 1;
      assert stack[..stackn] == old(stack[..stackn])[..stackn];
    }

    /** The entries that are listed, in order. */
    method Read(id: Id) returns (ents: seq<Entry>)
      requires id in fs
      ensures ents == Shown(fs[id], flags)
    {
      ents := [];
      var i := 0;
      while i < |fs[id]|
        invariant 0 <= i <= |fs[id]|
        invariant ents + Shown(fs[id][i..], flags) == Shown(fs[id], flags)
      {
        if Visible(fs[id][i].name, flags) { ents := ents + [fs[id][i]]; }
        i := i + 1;
      }
    }

    /** listdir: it ends, cycles or not, writes what the specification says, and gives the stack back as it was. */
    method ListDir(id: Id, path: string, title: Option<string>)
      requires Valid() && stackn > 0 && Trail()[stackn - 1] == id
      modifies this`stack, this`stackn, this`out, stack
      ensures Valid() && (stack == old(stack) || fresh(stack)) && Trail() == old(Trail())
      ensures out == old(out) + Walk(fs, flags, old(Trail()), path, title)
      decreases Left(fs, Trail()), if id in fs then 2 else 0, 0
    {
      if id !in fs {
        out := out + [Unreadable(path)];
        return;
      }
      var trail := stack[..stackn];
      var ents := Read(id);
      out := out + [Listing(trail, title, Names(ents))];
      if flags.recurse { EnterAll(ents, path); }
    }

    /** listdir's second loop */
    method EnterAll(ents: seq<Entry>, path: string)
      requires Valid() && stackn > 0
      modifies this`stack, this`stackn, this`out, stack
      ensures Valid() && (stack == old(stack) || fresh(stack)) && Trail() == old(Trail())
      ensures out == old(out) + Below(fs, flags, old(Trail()), path, ents)
      decreases Left(fs, Trail()), 1, 1
    {
      hide Walk, Entered, Left;
      var i := 0;
      while i < |ents|
        invariant 0 <= i <= |ents|
        invariant Valid() && (stack == old(stack) || fresh(stack)) && Trail() == old(Trail())
        invariant out + Below(fs, flags, old(Trail()), path, ents[i..])
                  == old(out) + Below(fs, flags, old(Trail()), path, ents)
      {
        assert ents[i..][1..] == ents[i + 1..];
        Enter(ents[i], path);
        i := i + 1;
      }
    }

    /** One round of listdir's second loop. */
    method Enter(e: Entry, path: string)
      requires Valid() && stackn > 0
      modifies this`stack, this`stackn, this`out, stack
      ensures Valid() && (stack == old(stack) || fresh(stack)) && Trail() == old(Trail())
      ensures out == old(out) + Entered(fs, flags, old(Trail()), path, e)
      decreases Left(fs, Trail()), 1, 0
    {
      hide Walk, Below, Left;
      if Dots(e.name) || !e.dir {
        return;
      }
      var path' := Join(path, e.name);
      var trail := stack[..stackn];
      var ok := PushVisit(e.id);
      if !ok {
        out := out + [Loop(trail, e.id, path')];
        return;
      }
      LeftFalls(fs, old(Trail()), e.id);
      ListDir(e.id, path', Some(path'));
      PopVisit();
    }

    method ListOperand(id: Id, path: string, title: Option<string>)
      requires Valid() && Trail() == []
      modifies this`stack, this`stackn, this`out, stack
      ensures Valid() && (stack == old(stack) || fresh(stack)) && Trail() == []
      ensures out == old(out) + Walk(fs, flags, [id], path, title)
    {
      hide Walk, Below, Entered, Left, Distinct;
      ghost var empty: seq<Id> := Trail();
      var _ := PushVisit(id);
      assert empty + [id] == [id];
      ListDir(id, path, title);
      PopVisit();
    }

    /** The loop of main over the directory operands. */
    method ListOperands(dirs: seq<(string, Id)>, wantHeader: bool)
      requires Valid() && Trail() == []
      modifies this`stack, this`stackn, this`out, stack
      ensures Valid() && Trail() == [] && out == old(out) + Operands(fs, flags, dirs, wantHeader)
    {
      hide Walk, Below, Entered, Left, Distinct;
      var i := 0;
      while i < |dirs|
        invariant 0 <= i <= |dirs|
        invariant Valid() && (stack == old(stack) || fresh(stack)) && Trail() == []
        invariant out + Operands(fs, flags, dirs[i..], wantHeader) == old(out) + Operands(fs, flags, dirs, wantHeader)
      {
        assert dirs[i..][1..] == dirs[i + 1..];
        ListOperand(dirs[i].1, dirs[i].0, if wantHeader then Some(dirs[i].0) else None);
        i := i + 1;
      }
    }
  }

  ghost function Operands(fs: Fs, flags: Flags, dirs: seq<(string, Id)>, wantHeader: bool): seq<Out> {
    if dirs == [] then []
    else Walk(fs, flags, [dirs[0].1], dirs[0].0, if wantHeader then Some(dirs[0].0) else None)
         + Operands(fs, flags, dirs[1..], wantHeader)
  }
}
