/**
 * The sidebar menu of the older site: a flat list of headers and links is folded into
 * groups, each header opening a new group that collects the links after it, links before
 * any header forming a group without heading. Groups left without links are dropped.
 */
module NavMenu {
  import opened Wrappers
  import opened Seqs

  datatype MenuItem =
    | MenuLink(text: string, link: string, isCurrent: Option<bool>)
    | MenuHeader(text: string)

  datatype Section = Section(heading: Option<string>, children: seq<MenuItem>)

  predicate IsLink(x: MenuItem)
  {
    x.MenuLink?
  }

  predicate NonEmpty(s: Section)
  {
    |s.children| > 0
  }

  /**
   * The `forEach` over the menu: `committed` is the group being filled and `done` the
   * groups already pushed. A header pushes the current group and opens its own; a link
   * joins the current group, or opens one without heading.
   */
  function Fold(items: seq<MenuItem>, committed: Option<Section>, done: seq<Section>): seq<Section>
    decreases |items|
  {
    var pushed := done + (if committed.Some? then [committed.value] else []);
    if |items| == 0 then pushed
    else if items[0].MenuHeader? then Fold(items[1..], Some(Section(Some(items[0].text), [])), pushed)
    else if committed.Some? then
      Fold(items[1..], Some(Section(committed.value.heading, committed.value.children + [items[0]])), done)
    else Fold(items[1..], Some(Section(None, [items[0]])), done)
  }

  /** `processNavMenu`: nothing for an absent or empty menu, otherwise the folded groups that hold links. */
  function ProcessNavMenu(navMenu: Option<seq<MenuItem>>): (r: seq<Section>)
    ensures forall i :: 0 <= i < |r| ==> NonEmpty(r[i])
    ensures navMenu.None? || navMenu == Some([]) ==> r == []
  {
    if navMenu.Some? && |navMenu.value| > 0 then Filter(Fold(navMenu.value, None, []), NonEmpty) else []
  }

  // ---------------------------------------------------------------- reference grouping

  /** The links that open the list, up to its first header. */
  function Lead(items: seq<MenuItem>): seq<MenuItem>
    decreases |items|
  {
    if |items| == 0 || items[0].MenuHeader? then [] else [items[0]] + Lead(items[1..])
  }

  /** What follows the leading links: empty, or starting at a header. */
  function AfterLead(items: seq<MenuItem>): (r: seq<MenuItem>)
    ensures |r| <= |items|
    decreases |items|
  {
    if |items| == 0 || items[0].MenuHeader? then items else AfterLead(items[1..])
  }

  /** The groups of a list that starts at a header: each header with the links up to the next one. */
  function HeaderSections(items: seq<MenuItem>): seq<Section>
    decreases |items|
  {
    if |items| == 0 then []
    else [Section(Some(items[0].text), Lead(items[1..]))] + HeaderSections(AfterLead(items[1..]))
  }

  /** The grouping read off the list: the leading links, then one group per header. */
  function Sections(items: seq<MenuItem>): seq<Section>
  {
    [Section(None, Lead(items))] + HeaderSections(AfterLead(items))
  }

  /** The links of the groups, read group after group. */
  function GroupedLinks(ss: seq<Section>): seq<MenuItem>
    decreases |ss|
  {
    if |ss| == 0 then [] else ss[0].children + GroupedLinks(ss[1..])
  }

  // ---------------------------------------------------------------- properties

  /** One step of the fold over a header. */
  lemma FoldHeader(items: seq<MenuItem>, committed: Option<Section>, done: seq<Section>)
    requires |items| > 0 && items[0].MenuHeader?
    ensures Fold(items, committed, done) ==
              Fold(items[1..], Some(Section(Some(items[0].text), [])), done + (if committed.Some? then [committed.value] else []))
  {
  }

  /** One step of the fold over a link. */
  lemma FoldLink(items: seq<MenuItem>, committed: Option<Section>, done: seq<Section>)
    requires |items| > 0 && IsLink(items[0])
    ensures committed.Some? ==>
              Fold(items, committed, done) ==
              Fold(items[1..], Some(Section(committed.value.heading, committed.value.children + [items[0]])), done)
    ensures committed.None? ==> Fold(items, committed, done) == Fold(items[1..], Some(Section(None, [items[0]])), done)
  {
  }

  /** How the leading run and what follows it change by one item. */
  lemma LeadStep(items: seq<MenuItem>)
    requires |items| > 0
    ensures items[0].MenuHeader? ==> Lead(items) == [] && AfterLead(items) == items
    ensures IsLink(items[0]) ==> Lead(items) == [items[0]] + Lead(items[1..]) && AfterLead(items) == AfterLead(items[1..])
  {
  }

  /** The list is its leading links followed by the rest, which is empty or opens with a header. */
  lemma {:induction false} LeadSplit(items: seq<MenuItem>)
    ensures Lead(items) + AfterLead(items) == items
    ensures forall i :: 0 <= i < |Lead(items)| ==> IsLink(Lead(items)[i])
    ensures |AfterLead(items)| == 0 || AfterLead(items)[0].MenuHeader?
    decreases |items|
  {
    if |items| > 0 && IsLink(items[0]) {
      LeadSplit(items[1..]);
      LeadSplitStep(items);
    }
  }

  /** The step of `LeadSplit` over a leading link. */
  lemma LeadSplitStep(items: seq<MenuItem>)
    requires |items| > 0 && IsLink(items[0])
    requires Lead(items[1..]) + AfterLead(items[1..]) == items[1..]
    requires forall i :: 0 <= i < |Lead(items[1..])| ==> IsLink(Lead(items[1..])[i])
    ensures Lead(items) + AfterLead(items) == items
    ensures forall i :: 0 <= i < |Lead(items)| ==> IsLink(Lead(items)[i])
  {
    LeadConcatStep(items);
    LeadLinksStep(items[0], Lead(items[1..]));
  }

  lemma LeadConcatStep(items: seq<MenuItem>)
    requires |items| > 0 && IsLink(items[0])
    requires Lead(items[1..]) + AfterLead(items[1..]) == items[1..]
    ensures Lead(items) + AfterLead(items) == items
  {
    var l, a := Lead(items[1..]), AfterLead(items[1..]);
    assert Lead(items) == [items[0]] + l;
    assert AfterLead(items) == a;
    ConsAssoc(items[0], l, a);
    assert items == [items[0]] + items[1..];
  }

  lemma LeadLinksStep(x: MenuItem, l: seq<MenuItem>)
    requires IsLink(x)
    requires forall i :: 0 <= i < |l| ==> IsLink(l[i])
    ensures forall i :: 0 <= i < |l| + 1 ==> IsLink(([x] + l)[i])
  {
    forall i | 0 <= i < |l| + 1
      ensures IsLink(([x] + l)[i])
    {
      if i > 0 {
        assert ([x] + l)[i] == l[i - 1];
      }
    }
  }

  lemma ConsAssoc<T>(x: T, l: seq<T>, a: seq<T>)
    ensures [x] + l + a == [x] + (l + a)
  {
  }

  /** The completed group and the header groups that the fold yields from `items` with `c` open. */
  function Completed(items: seq<MenuItem>, c: Section, done: seq<Section>): seq<Section>
  {
    done + [Section(c.heading, c.children + Lead(items))] + HeaderSections(AfterLead(items))
  }

  /** The header case of `FoldOpen`, given its claim for the rest of the list. */
  lemma FoldOpenHeader(items: seq<MenuItem>, c: Section, done: seq<Section>)
    requires |items| > 0 && items[0].MenuHeader?
    requires Fold(items[1..], Some(Section(Some(items[0].text), [])), done + [c]) ==
             Completed(items[1..], Section(Some(items[0].text), []), done + [c])
    ensures Fold(items, Some(c), done) == Completed(items, c, done)
  {
    FoldHeader(items, Some(c), done);
    CompletedHeader(items, c, done);
  }

  /** Completing at a header closes the open group as it is and opens the header's group. */
  lemma CompletedHeader(items: seq<MenuItem>, c: Section, done: seq<Section>)
    requires |items| > 0 && items[0].MenuHeader?
    ensures Completed(items, c, done) == Completed(items[1..], Section(Some(items[0].text), []), done + [c])
  {
    var h' := Section(Some(items[0].text), Lead(items[1..]));
    var rest := HeaderSections(AfterLead(items[1..]));
    LeadStep(items);
    HeaderSectionsStep(items);
    assert [] + Lead(items[1..]) == Lead(items[1..]);
    assert c.children + Lead(items) == c.children;
    assert done + [c] + ([h'] + rest) == (done + [c]) + [h'] + rest;
  }

  /** One header group, then the groups after it. */
  lemma HeaderSectionsStep(items: seq<MenuItem>)
    requires |items| > 0
    ensures HeaderSections(items) == [Section(Some(items[0].text), Lead(items[1..]))] + HeaderSections(AfterLead(items[1..]))
  {
  }

  /** The link case of `FoldOpen`, given its claim for the rest of the list. */
  lemma FoldOpenLink(items: seq<MenuItem>, c: Section, done: seq<Section>)
    requires |items| > 0 && IsLink(items[0])
    requires Fold(items[1..], Some(Section(c.heading, c.children + [items[0]])), done) ==
             Completed(items[1..], Section(c.heading, c.children + [items[0]]), done)
    ensures Fold(items, Some(c), done) == Completed(items, c, done)
  {
    var c' := Section(c.heading, c.children + [items[0]]);
    FoldLink(items, Some(c), done);
    LeadStep(items);
    assert c'.children + Lead(items[1..]) == c.children + Lead(items);
  }

  /** With a group open, the fold completes it with the leading links, then adds the header groups. */
  lemma {:induction false} FoldOpen(items: seq<MenuItem>, c: Section, done: seq<Section>)
    ensures Fold(items, Some(c), done) == Completed(items, c, done)
    decreases |items|
  {
    if |items| == 0 {
      assert c.children + Lead(items) == c.children;
    } else if items[0].MenuHeader? {
      FoldOpen(items[1..], Section(Some(items[0].text), []), done + [c]);
      FoldOpenHeader(items, c, done);
    } else {
      FoldOpen(items[1..], Section(c.heading, c.children + [items[0]]), done);
      FoldOpenLink(items, c, done);
    }
  }

  /** From the start, the fold yields the leading links' group, if any, then the header groups. */
  lemma FoldStart(items: seq<MenuItem>)
    ensures Fold(items, None, []) ==
              (if |Lead(items)| > 0 then [Section(None, Lead(items))] else []) + HeaderSections(AfterLead(items))
  {
    if |items| > 0 {
      LeadStep(items);
      if items[0].MenuHeader? {
        FoldHeader(items, None, []);
        FoldOpen(items[1..], Section(Some(items[0].text), []), []);
        assert [] + Lead(items[1..]) == Lead(items[1..]);
      } else {
        FoldLink(items, None, []);
        FoldOpen(items[1..], Section(None, [items[0]]), []);
      }
    }
  }

  /** The menu's groups are the reference grouping without its empty groups. */
  lemma ProcessIsSections(menu: seq<MenuItem>)
    ensures ProcessNavMenu(Some(menu)) == Filter(Sections(menu), NonEmpty)
  {
    var head := [Section(None, Lead(menu))];
    var rest := HeaderSections(AfterLead(menu));
    FilterConcat(head, rest, NonEmpty);
    if |menu| > 0 {
      FoldStart(menu);
      if |Lead(menu)| > 0 {
        FilterConcat(head, rest, NonEmpty);
        assert Filter(head, NonEmpty) == head;
      } else {
        assert Filter(head, NonEmpty) == [];
      }
      FilterConcat(if |Lead(menu)| > 0 then head else [], rest, NonEmpty);
    }
  }

  /** The header groups hold exactly the links after the first header, in order. */
  lemma {:induction false} HeaderSectionsLinks(items: seq<MenuItem>)
    requires |items| == 0 || items[0].MenuHeader?
    ensures GroupedLinks(HeaderSections(items)) == Filter(items, IsLink)
    decreases |items|
  {
    if |items| > 0 {
      var body := items[1..];
      LeadSplit(body);
      HeaderSectionsLinks(AfterLead(body));
      assert items == [items[0]] + (Lead(body) + AfterLead(body));
      FilterConcat([items[0]], Lead(body) + AfterLead(body), IsLink);
      FilterConcat(Lead(body), AfterLead(body), IsLink);
      FilterAll(Lead(body), IsLink);
      assert Filter([items[0]], IsLink) == [];
      assert HeaderSections(items)[1..] == HeaderSections(AfterLead(body));
    }
  }

  /** The reference grouping holds every link once, in menu order. */
  lemma SectionsLinks(menu: seq<MenuItem>)
    ensures GroupedLinks(Sections(menu)) == Filter(menu, IsLink)
  {
    LeadSplit(menu);
    HeaderSectionsLinks(AfterLead(menu));
    FilterConcat(Lead(menu), AfterLead(menu), IsLink);
    FilterAll(Lead(menu), IsLink);
    assert Sections(menu)[1..] == HeaderSections(AfterLead(menu));
  }

  /** The links of a group followed by more groups. */
  lemma GroupedLinksCons(g: Section, ss: seq<Section>)
    ensures GroupedLinks([g] + ss) == g.children + GroupedLinks(ss)
  {
    assert ([g] + ss)[1..] == ss;
  }

  /** Dropping empty groups loses no link. */
  lemma {:induction false} DropEmptyKeepsLinks(ss: seq<Section>)
    ensures GroupedLinks(Filter(ss, NonEmpty)) == GroupedLinks(ss)
    decreases |ss|
  {
    if |ss| > 0 {
      DropEmptyKeepsLinks(ss[1..]);
      if NonEmpty(ss[0]) {
        DropEmptyKeep(ss);
      } else {
        DropEmptySkip(ss);
      }
    }
  }

  /** The step of `DropEmptyKeepsLinks` for a first group with links. */
  lemma DropEmptyKeep(ss: seq<Section>)
    requires |ss| > 0 && NonEmpty(ss[0])
    requires GroupedLinks(Filter(ss[1..], NonEmpty)) == GroupedLinks(ss[1..])
    ensures GroupedLinks(Filter(ss, NonEmpty)) == GroupedLinks(ss)
  {
    var tail := Filter(ss[1..], NonEmpty);
    FilterCons(ss, NonEmpty);
    assert Filter(ss, NonEmpty) == [ss[0]] + tail;
    GroupedLinksCons(ss[0], tail);
  }

  /** The step of `DropEmptyKeepsLinks` for an empty first group. */
  lemma DropEmptySkip(ss: seq<Section>)
    requires |ss| > 0 && !NonEmpty(ss[0])
    requires GroupedLinks(Filter(ss[1..], NonEmpty)) == GroupedLinks(ss[1..])
    ensures GroupedLinks(Filter(ss, NonEmpty)) == GroupedLinks(ss)
  {
    FilterCons(ss, NonEmpty);
    assert Filter(ss, NonEmpty) == Filter(ss[1..], NonEmpty);
    assert ss[0].children == [];
    assert GroupedLinks(ss) == ss[0].children + GroupedLinks(ss[1..]);
  }

  /** Every link of the menu appears in exactly one group, and the groups read in order give the links in menu order. */
  lemma ProcessNavMenuLinks(menu: seq<MenuItem>)
    ensures GroupedLinks(ProcessNavMenu(Some(menu))) == Filter(menu, IsLink)
  {
    ProcessIsSections(menu);
    DropEmptyKeepsLinks(Sections(menu));
    SectionsLinks(menu);
  }

  /** Links before any header open the menu as a group without heading. */
  lemma LeadingLinksFirst(menu: seq<MenuItem>)
    requires |menu| > 0 && IsLink(menu[0])
    ensures |ProcessNavMenu(Some(menu))| > 0
    ensures ProcessNavMenu(Some(menu))[0] == Section(None, Lead(menu))
  {
    ProcessIsSections(menu);
    FilterCons(Sections(menu), NonEmpty);
    assert Sections(menu)[0] == Section(None, Lead(menu));
    assert menu[0] in Lead(menu);
  }

  /** A group after the first is opened by a header, and holds the links up to the next header. */
  lemma {:induction false} HeaderSectionsShape(items: seq<MenuItem>, i: int)
    requires |items| == 0 || items[0].MenuHeader?
    requires 0 <= i < |HeaderSections(items)|
    ensures HeaderSections(items)[i].heading.Some?
    ensures forall x :: x in HeaderSections(items)[i].children ==> IsLink(x)
    decreases |items|
  {
    var body := items[1..];
    if i > 0 {
      LeadSplit(body);
      HeaderSectionsShape(AfterLead(body), i - 1);
    } else {
      LeadSplit(body);
    }
  }
}
