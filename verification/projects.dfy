/**
 * The project index of the current site: projects are grouped by type, the groups in the
 * type's declaration order (software, games, sites), and each group sorted with the
 * featured projects first, then dated projects newest first, then undated projects by
 * title. The sort is Rust's stable `sort_by` with a three-way comparator; the model sorts
 * by an integer key and proves that the key orders exactly as the comparator does.
 */
module Projects {
  import opened Wrappers
  import opened Seqs
  import opened Ordering
  import opened Calendar

  /** `ProjectType`, whose derived `Ord` follows the declaration order. */
  datatype ProjectType = Software | Game | Site

  function Rank(t: ProjectType): int
  {
    match t
    case Software => 0
    case Game => 1
    case Site => 2
  }

  datatype Project = Project(
    id: string,
    title: string,
    tagline: Option<string>,
    featured: Option<bool>,
    date: Option<Date>,
    kind: ProjectType,
    externalUrl: Option<string>)

  /** `featured.unwrap_or(false)`. */
  predicate Featured(p: Project)
  {
    p.featured == Some(true)
  }

  // ---------------------------------------------------------------- the comparator

  /** `std::cmp::Ordering`. */
  datatype Cmp = Less | Equal | Greater

  function CmpInt(a: int, b: int): Cmp
  {
    if a < b then Less else if a == b then Equal else Greater
  }

  /** Calendar order: year, then month, then day. */
  function CmpDate(a: Date, b: Date): Cmp
  {
    if a.year != b.year then CmpInt(a.year, b.year)
    else if a.month != b.month then CmpInt(a.month, b.month)
    else CmpInt(a.day, b.day)
  }

  /** `Ord for String`: code point by code point, a proper prefix first. */
  function CmpStr(a: string, b: string): Cmp
    decreases |a|
  {
    if |a| == 0 && |b| == 0 then Equal
    else if |a| == 0 then Less
    else if |b| == 0 then Greater
    else if a[0] != b[0] then CmpInt(a[0] as int, b[0] as int)
    else CmpStr(a[1..], b[1..])
  }

  /** The `sort_by` closure of the project index. */
  function Compare(a: Project, b: Project): Cmp
  {
    if Featured(a) && !Featured(b) then Less
    else if !Featured(a) && Featured(b) then Greater
    else if a.date.Some? && b.date.Some? then CmpDate(b.date.value, a.date.value)
    else if a.date.Some? then Less
    else if b.date.Some? then Greater
    else CmpStr(a.title, b.title)
  }

  // ---------------------------------------------------------------- the sort key

  /** Dated projects first, newest first; undated ones by title. Equal dates tie. */
  function DateKey(p: Project): seq<int>
  {
    if p.date.Some? then [0, -p.date.value.year, -p.date.value.month, -p.date.value.day]
    else [1] + StrKey(p.title)
  }

  /** Featured projects first, then the date key. */
  function ProjectKey(p: Project): seq<int>
  {
    [if Featured(p) then 0 else 1] + DateKey(p)
  }

  function KindOf(p: Project): ProjectType
  {
    p.kind
  }

  // ---------------------------------------------------------------- the index

  predicate HasKind(ps: seq<Project>, t: ProjectType)
  {
    exists i :: 0 <= i < |ps| && ps[i].kind == t
  }

  /** The keys of the `BTreeMap` built by the fold: the types present, in `Ord` order. */
  function PresentKinds(ps: seq<Project>): (r: seq<ProjectType>)
    ensures forall t :: t in r <==> HasKind(ps, t)
    ensures forall i, j :: 0 <= i < j < |r| ==> Rank(r[i]) < Rank(r[j])
  {
    (if HasKind(ps, Software) then [Software] else []) +
    (if HasKind(ps, Game) then [Game] else []) +
    (if HasKind(ps, Site) then [Site] else [])
  }

  /** `format!("{project_type:?}s")`. */
  function Heading(t: ProjectType): string
  {
    match t
    case Software => "Softwares"
    case Game => "Games"
    case Site => "Sites"
  }

  datatype TypeGroup = TypeGroup(kind: ProjectType, heading: string, projects: seq<Project>)

  /** `ProjectIndex::render`'s data: one group per present type, each sorted. */
  function ProjectIndex(ps: seq<Project>): (r: seq<TypeGroup>)
    ensures |r| == |PresentKinds(ps)|
  {
    var ks := PresentKinds(ps);
    seq(|ks|, i requires 0 <= i < |ks| =>
      TypeGroup(ks[i], Heading(ks[i]), SortBy(WithKey(ps, KindOf, ks[i]), ProjectKey)))
  }

  function GroupProjects(gs: seq<TypeGroup>): (r: seq<seq<Project>>)
    ensures |r| == |gs| && forall i :: 0 <= i < |gs| ==> r[i] == gs[i].projects
  {
    seq(|gs|, i requires 0 <= i < |gs| => gs[i].projects)
  }

  /** Where a project card links: its external URL when set, otherwise its own page. */
  function Href(p: Project): (r: string)
    ensures p.externalUrl.Some? ==> r == p.externalUrl.value
    ensures p.externalUrl.None? ==> |r| >= 10 && r[..10] == "/projects/" && r[10..] == p.id
  {
    if p.externalUrl.Some? then p.externalUrl.value else "/projects/" + p.id
  }

  // ---------------------------------------------------------------- properties

  /** Differing first code points decide the comparison. */
  lemma CmpStrDiffer(a: string, b: string)
    requires |a| > 0 && |b| > 0 && a[0] != b[0]
    ensures CmpStr(a, b) != Greater <==> StrLe(a, b)
    ensures CmpStr(a, b) != Equal && a != b
  {
    StrKeyTail(a);
    StrKeyTail(b);
    var ka := StrKey(a);
    var kb := StrKey(b);
    assert ka[0] != kb[0];
    assert StrLe(a, b) <==> ka[0] < kb[0];
  }

  /** On a shared first code point the rest decides. */
  lemma CmpStrSame(a: string, b: string)
    requires |a| > 0 && |b| > 0 && a[0] == b[0]
    ensures CmpStr(a, b) == CmpStr(a[1..], b[1..])
    ensures StrLe(a, b) == StrLe(a[1..], b[1..])
    ensures a == b <==> a[1..] == b[1..]
  {
    StrKeyTail(a);
    StrKeyTail(b);
    LexLeSharedPrefix([a[0] as int + 1], StrKey(a[1..]), StrKey(b[1..]));
    assert a == [a[0]] + a[1..] && b == [b[0]] + b[1..];
  }

  /** String comparison agrees with the string key, and is `Equal` only on equal strings. */
  lemma {:induction false} CmpStrKey(a: string, b: string)
    ensures CmpStr(a, b) != Greater <==> StrLe(a, b)
    ensures CmpStr(a, b) == Equal <==> a == b
    decreases |a|
  {
    if |a| > 0 && |b| > 0 {
      if a[0] == b[0] {
        CmpStrKey(a[1..], b[1..]);
        CmpStrSame(a, b);
      } else {
        CmpStrDiffer(a, b);
      }
    } else if |a| > 0 {
      StrKeyTail(a);
    } else if |b| > 0 {
      StrKeyTail(b);
    } else {
      LexLeReflexive(StrKey(a));
    }
  }

  /** Newest first: a date key comes first exactly when its date is not older. */
  lemma DateKeyOrder(a: Project, b: Project)
    requires a.date.Some? && b.date.Some?
    ensures CmpDate(b.date.value, a.date.value) != Greater <==> LexLe(DateKey(a), DateKey(b))
    ensures CmpDate(b.date.value, a.date.value) == Equal <==> DateKey(a) == DateKey(b)
  {
    var x := DateKey(a);
    var y := DateKey(b);
    var da := a.date.value;
    var db := b.date.value;
    assert x[1..] == [-da.year, -da.month, -da.day] && y[1..] == [-db.year, -db.month, -db.day];
    assert x[1..][1..] == [-da.month, -da.day] && y[1..][1..] == [-db.month, -db.day];
    assert x[1..][1..][1..] == [-da.day] && y[1..][1..][1..] == [-db.day];
    assert LexLe(x, y) == LexLe(x[1..], y[1..]);
    if da.year == db.year {
      assert LexLe(x[1..], y[1..]) == LexLe(x[1..][1..], y[1..][1..]);
      if da.month == db.month {
        assert LexLe(x[1..][1..], y[1..][1..]) == LexLe(x[1..][1..][1..], y[1..][1..][1..]);
        assert LexLe(x[1..][1..][1..], y[1..][1..][1..]) == (da.day >= db.day);
      }
    }
  }

  /** The rest of the key, after the featured flag, orders as the date and title part of the comparator. */
  lemma DateKeyMatches(a: Project, b: Project)
    ensures var c := if a.date.Some? && b.date.Some? then CmpDate(b.date.value, a.date.value)
                     else if a.date.Some? then Less
                     else if b.date.Some? then Greater
                     else CmpStr(a.title, b.title);
            && (c != Greater <==> LexLe(DateKey(a), DateKey(b)))
            && (c == Equal <==> DateKey(a) == DateKey(b))
  {
    if a.date.Some? && b.date.Some? {
      DateKeyOrder(a, b);
    } else if a.date.None? && b.date.None? {
      CmpStrKey(a.title, b.title);
      LexLeSharedPrefix([1], StrKey(a.title), StrKey(b.title));
      StrKeyInjective(a.title, b.title);
    }
  }

  /** The sort key orders the projects exactly as the comparator does, ties included. */
  lemma CompareMatchesKey(a: Project, b: Project)
    ensures Compare(a, b) != Greater <==> LexLe(ProjectKey(a), ProjectKey(b))
    ensures Compare(a, b) == Equal <==> ProjectKey(a) == ProjectKey(b)
  {
    var fa: seq<int> := [if Featured(a) then 0 else 1];
    var fb: seq<int> := [if Featured(b) then 0 else 1];
    if Featured(a) == Featured(b) {
      DateKeyMatches(a, b);
      LexLeSharedPrefix(fa, DateKey(a), DateKey(b));
      assert ProjectKey(a) == ProjectKey(b) <==> DateKey(a) == DateKey(b) by {
        assert ProjectKey(a)[1..] == DateKey(a) && ProjectKey(b)[1..] == DateKey(b);
      }
    } else {
      LexLeEqualWidth(fa, fb, DateKey(a), DateKey(b));
      assert ProjectKey(a)[0] != ProjectKey(b)[0];
    }
  }

  /** Every group is non-empty, holds exactly the projects of its type, and carries its heading. */
  lemma IndexGroups(ps: seq<Project>, i: int)
    requires 0 <= i < |ProjectIndex(ps)|
    ensures var g := ProjectIndex(ps)[i];
            && |g.projects| > 0
            && (forall p :: p in g.projects <==> p in ps && p.kind == g.kind)
            && multiset(g.projects) == multiset(WithKey(ps, KindOf, g.kind))
            && g.heading == Heading(g.kind)
  {
    var ks := PresentKinds(ps);
    var g := ProjectIndex(ps)[i];
    var w := WithKey(ps, KindOf, ks[i]);
    forall p
      ensures p in g.projects <==> p in ps && p.kind == g.kind
    {
      assert p in g.projects <==> p in multiset(w);
      WithKeyMembers(ps, KindOf, ks[i], p);
    }
    assert ks[i] in ks;
    var j :| 0 <= j < |ps| && ps[j].kind == ks[i];
    assert ps[j] in g.projects;
  }

  /** Groups come in the type's declaration order, and each type present has its group. */
  lemma IndexKinds(ps: seq<Project>)
    ensures var r := ProjectIndex(ps);
            && (forall i, j :: 0 <= i < j < |r| ==> Rank(r[i].kind) < Rank(r[j].kind))
            && (forall p :: p in ps ==> exists i :: 0 <= i < |r| && r[i].kind == p.kind)
  {
    var r := ProjectIndex(ps);
    var ks := PresentKinds(ps);
    forall p | p in ps
      ensures exists i :: 0 <= i < |r| && r[i].kind == p.kind
    {
      var j :| 0 <= j < |ps| && ps[j] == p;
      assert HasKind(ps, p.kind);
      var i :| 0 <= i < |ks| && ks[i] == p.kind;
      assert r[i].kind == p.kind;
    }
  }

  /** Each project appears in exactly one group, as often as in the input. */
  lemma IndexPartition(ps: seq<Project>)
    ensures multiset(Flatten(GroupProjects(ProjectIndex(ps)))) == multiset(ps)
  {
    var ks := PresentKinds(ps);
    var r := ProjectIndex(ps);
    forall p | p in ps
      ensures KindOf(p) in ks
    {
      var j :| 0 <= j < |ps| && ps[j] == p;
      assert HasKind(ps, p.kind);
    }
    GroupsPartition(ps, KindOf, ks);
    FlattenPermuted(GroupProjects(r), GroupsBy(ps, KindOf, ks));
  }

  /** Within a group, no project is placed after one the comparator puts after it. */
  lemma GroupOrder(ps: seq<Project>, i: int, j: int, k: int)
    requires 0 <= i < |ProjectIndex(ps)|
    requires 0 <= j < k < |ProjectIndex(ps)[i].projects|
    ensures var g := ProjectIndex(ps)[i].projects;
            Compare(g[j], g[k]) != Greater
  {
    var g := ProjectIndex(ps)[i].projects;
    CompareMatchesKey(g[j], g[k]);
  }

  /** What the comparator's order means for two projects in sorted order. */
  lemma CompareMeaning(a: Project, b: Project)
    requires Compare(a, b) != Greater
    ensures Featured(b) ==> Featured(a)
    ensures Featured(a) == Featured(b) && b.date.Some? ==> a.date.Some?
    ensures Featured(a) == Featured(b) && a.date.Some? && b.date.Some? ==>
              CmpDate(a.date.value, b.date.value) != Less
    ensures Featured(a) == Featured(b) && a.date.None? && b.date.None? ==> StrLe(a.title, b.title)
  {
    CmpStrKey(a.title, b.title);
    if Featured(a) == Featured(b) && a.date.Some? && b.date.Some? {
      var x := a.date.value;
      var y := b.date.value;
      assert CmpDate(y, x) != Greater;
    }
  }

  /** Projects the comparator finds equal keep their input order within their group. */
  lemma GroupTies(ps: seq<Project>, i: int, p: Project)
    requires 0 <= i < |ProjectIndex(ps)|
    ensures var g := ProjectIndex(ps)[i];
            WithKey(g.projects, ProjectKey, ProjectKey(p)) == WithKey(WithKey(ps, KindOf, g.kind), ProjectKey, ProjectKey(p))
  {
    var ks := PresentKinds(ps);
    SortByStable(WithKey(ps, KindOf, ks[i]), ProjectKey, ProjectKey(p));
  }

  /** Distinct pages of projects without external URL get distinct links. */
  lemma HrefInjective(a: Project, b: Project)
    requires a.externalUrl.None? && b.externalUrl.None?
    ensures Href(a) == Href(b) <==> a.id == b.id
  {
  }
}
