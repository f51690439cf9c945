/** The scroll tracker's decision rules, as pure functions: which section is
    active for a scroll position (in the React variant and in the plain
    script variant, which differ), where a link click scrolls to, and which
    anchor a click lands on. */
module ScrollSpy {
  import opened Dom

  // ---------------------------------------------------------------------
  // React variant: a loop over the declared hashes
  // ---------------------------------------------------------------------

  /** The React loop's test for one declared hash: its element exists and
      its boundary is at or above the scroll offset. */
  predicate HashReached(p: Page, hash: string) {
    hash in p.elements && Boundary(p.elements[hash].offsetTop, NavHeight(p)) <= p.scrollY
  }

  /** The value `current` holds after the loop has run over `links`,
      starting from `dflt`: the last reached hash. */
  function LastReachedHash(links: seq<string>, p: Page, dflt: string): string
    decreases |links|
  {
    if links == [] then dflt
    else if HashReached(p, links[|links| - 1]) then links[|links| - 1]
    else LastReachedHash(links[..|links| - 1], p, dflt)
  }

  /** The hash the React navigation bar marks active: the boundary loop
      starting from the first declared hash, then the bottom clamp, which
      reads only the root element's scroll height. */
  function ReactActive(links: seq<string>, p: Page): string
    requires links != []
  {
    if AtBottom(p.scrollY, p.innerHeight, p.rootScrollHeight) then links[|links| - 1]
    else LastReachedHash(links, p, links[0])
  }

  /** The loop's result is the default exactly when no hash is reached, and
      otherwise a reached hash after which no hash is reached. */
  lemma {:induction false} LastReachedHashIsLastReached(links: seq<string>, p: Page, dflt: string)
    ensures (forall i :: 0 <= i < |links| ==> !HashReached(p, links[i])) ==>
      LastReachedHash(links, p, dflt) == dflt
    ensures (exists i :: 0 <= i < |links| && HashReached(p, links[i])) ==>
      exists i :: 0 <= i < |links| && HashReached(p, links[i]) &&
        LastReachedHash(links, p, dflt) == links[i] &&
        forall j :: i < j < |links| ==> !HashReached(p, links[j])
  {
    if links != [] {
      var n := |links| - 1;
      var init := links[..n];
      assert forall i :: 0 <= i < n ==> init[i] == links[i];
      if !HashReached(p, links[n]) {
        LastReachedHashIsLastReached(init, p, dflt);
        if exists i :: 0 <= i < |links| && HashReached(p, links[i]) {
          var k :| 0 <= k < |links| && HashReached(p, links[k]);
          assert HashReached(p, init[k]);
          var i :| 0 <= i < |init| && HashReached(p, init[i]) &&
            LastReachedHash(init, p, dflt) == init[i] &&
            forall j :: i < j < |init| ==> !HashReached(p, init[j]);
          assert forall j :: i < j < |links| ==> !HashReached(p, links[j]) by {
            forall j | i < j < |links| ensures !HashReached(p, links[j]) {
              if j < n { assert links[j] == init[j]; }
            }
          }
        }
      }
    }
  }

  /** The loop only ever yields a declared hash or its default. */
  lemma {:induction false} LastReachedHashDeclared(links: seq<string>, p: Page, dflt: string)
    ensures LastReachedHash(links, p, dflt) == dflt || LastReachedHash(links, p, dflt) in links
  {
    LastReachedHashIsLastReached(links, p, dflt);
  }

  /** The active hash is always one of the declared hashes. */
  lemma ReactActiveIsDeclared(links: seq<string>, p: Page)
    requires links != []
    ensures ReactActive(links, p) in links
  {
    LastReachedHashDeclared(links, p, links[0]);
  }

  /** A hash whose element is missing never wins the boundary test: it can
      come out of the loop only as the default. */
  lemma {:induction false} MissingHashOnlyAsDefault(links: seq<string>, p: Page, dflt: string, hash: string)
    requires hash !in p.elements
    requires LastReachedHash(links, p, dflt) == hash
    ensures hash == dflt
  {
    LastReachedHashIsLastReached(links, p, dflt);
  }

  // ---------------------------------------------------------------------
  // Plain script variant: a loop over the links whose target exists
  // ---------------------------------------------------------------------

  /** `links.map(a => ({a, target: $(href)})).filter(x => x.target)`: the
      targets that exist, in link order. */
  function Targets(hrefs: seq<string>, p: Page): seq<Element>
    decreases |hrefs|
  {
    if hrefs == [] then []
    else (if hrefs[0] in p.elements then [p.elements[hrefs[0]]] else []) + Targets(hrefs[1..], p)
  }

  /** The script loop's test for one existing target. */
  predicate ElementReached(p: Page, e: Element) {
    Boundary(e.offsetTop, NavHeight(p)) <= p.scrollY
  }

  /** The value `currentId` holds after the loop has run over `items`,
      starting from `dflt` (`None` stands for JavaScript's `undefined`). */
  function LastReachedId(items: seq<Element>, p: Page, dflt: Option<string>): Option<string>
    decreases |items|
  {
    if items == [] then dflt
    else if ElementReached(p, items[|items| - 1]) then Some(items[|items| - 1].id)
    else LastReachedId(items[..|items| - 1], p, dflt)
  }

  /** What one call of `updateActiveNavOnScroll` does to the links: nothing,
      or `setActiveById` with an id (`None`: the id is `undefined`). */
  datatype NavUpdate = Unchanged | Activate(id: Option<string>)

  /** The script variant's rule: no links, no change; at the bottom, the last
      existing target (if any) wins without the loop; otherwise the loop over
      the existing targets, starting from the first one's id. */
  function ScriptScrollUpdate(hrefs: seq<string>, p: Page): NavUpdate {
    if hrefs == [] then Unchanged
    else
      var items := Targets(hrefs, p);
      if AtBottom(p.scrollY, p.innerHeight, DocHeight(p)) then
        if items == [] then Unchanged else Activate(Some(items[|items| - 1].id))
      else
        Activate(LastReachedId(items, p, if items == [] then None else Some(items[0].id)))
  }

  /** `${id}`: how a missing id prints inside a template string. */
  function Interpolate(id: Option<string>): string {
    if id.Some? then id.value else "undefined"
  }

  /** Exactly the links whose target exists contribute a target, each the
      element its href selects. */
  lemma {:induction false} TargetsAreExistingTargets(hrefs: seq<string>, p: Page)
    ensures forall e :: e in Targets(hrefs, p) <==>
      exists i :: 0 <= i < |hrefs| && hrefs[i] in p.elements && p.elements[hrefs[i]] == e
  {
    if hrefs != [] {
      TargetsAreExistingTargets(hrefs[1..], p);
      forall e ensures e in Targets(hrefs, p) <==>
        exists i :: 0 <= i < |hrefs| && hrefs[i] in p.elements && p.elements[hrefs[i]] == e
      {
        if e in Targets(hrefs[1..], p) {
          var i :| 0 <= i < |hrefs[1..]| && hrefs[1..][i] in p.elements && p.elements[hrefs[1..][i]] == e;
          assert hrefs[i + 1] == hrefs[1..][i];
        }
        if exists i :: 0 <= i < |hrefs| && hrefs[i] in p.elements && p.elements[hrefs[i]] == e {
          var i :| 0 <= i < |hrefs| && hrefs[i] in p.elements && p.elements[hrefs[i]] == e;
          if i > 0 { assert hrefs[1..][i - 1] == hrefs[i]; }
        }
      }
    }
  }

  /** When every link's target exists, the targets are the links' elements,
      one for one. */
  lemma {:induction false} TargetsWhenAllExist(hrefs: seq<string>, p: Page)
    requires forall i :: 0 <= i < |hrefs| ==> hrefs[i] in p.elements
    ensures |Targets(hrefs, p)| == |hrefs|
    ensures forall i :: 0 <= i < |hrefs| ==> Targets(hrefs, p)[i] == p.elements[hrefs[i]]
  {
    if hrefs != [] {
      assert forall i :: 0 <= i < |hrefs[1..]| ==> hrefs[1..][i] == hrefs[i + 1];
      TargetsWhenAllExist(hrefs[1..], p);
    }
  }

  /** The script loop's result is the default exactly when no item is
      reached, and otherwise the id of a reached item after which no item
      is reached. */
  lemma {:induction false} LastReachedIdIsLastReached(items: seq<Element>, p: Page, dflt: Option<string>)
    ensures (forall k :: 0 <= k < |items| ==> !ElementReached(p, items[k])) ==>
      LastReachedId(items, p, dflt) == dflt
    ensures (exists k :: 0 <= k < |items| && ElementReached(p, items[k])) ==>
      exists k :: 0 <= k < |items| && ElementReached(p, items[k]) &&
        LastReachedId(items, p, dflt) == Some(items[k].id) &&
        forall j :: k < j < |items| ==> !ElementReached(p, items[j])
  {
    if items != [] {
      var n := |items| - 1;
      var init := items[..n];
      assert forall k :: 0 <= k < n ==> init[k] == items[k];
      if !ElementReached(p, items[n]) {
        LastReachedIdIsLastReached(init, p, dflt);
        if exists k :: 0 <= k < |items| && ElementReached(p, items[k]) {
          var m :| 0 <= m < |items| && ElementReached(p, items[m]);
          assert ElementReached(p, init[m]);
          var k :| 0 <= k < |init| && ElementReached(p, init[k]) &&
            LastReachedId(init, p, dflt) == Some(init[k].id) &&
            forall j :: k < j < |init| ==> !ElementReached(p, init[j]);
          assert forall j :: k < j < |items| ==> !ElementReached(p, items[j]) by {
            forall j | k < j < |items| ensures !ElementReached(p, items[j]) {
              if j < n { assert items[j] == init[j]; }
            }
          }
        }
      }
    }
  }

  /** The script loop's result is its default or the id of one of the items. */
  lemma {:induction false} LastReachedIdFromItems(items: seq<Element>, p: Page, dflt: Option<string>)
    ensures LastReachedId(items, p, dflt) == dflt ||
      exists k :: 0 <= k < |items| && LastReachedId(items, p, dflt) == Some(items[k].id)
  {
    LastReachedIdIsLastReached(items, p, dflt);
  }

  /** Filtering keeps link order: the targets of two runs of links are the
      first run's targets followed by the second's. */
  lemma {:induction false} TargetsAppend(a: seq<string>, b: seq<string>, p: Page)
    ensures Targets(a + b, p) == Targets(a, p) + Targets(b, p)
  {
    if a == [] {
      assert a + b == b;
    } else {
      assert (a + b)[0] == a[0];
      assert (a + b)[1..] == a[1..] + b;
      TargetsAppend(a[1..], b, p);
    }
  }

  /** The first target is the element of the first link whose target
      exists. */
  lemma {:induction false} TargetsFirst(hrefs: seq<string>, p: Page)
    requires exists i :: 0 <= i < |hrefs| && hrefs[i] in p.elements
    ensures Targets(hrefs, p) != []
    ensures exists i :: (0 <= i < |hrefs| && hrefs[i] in p.elements &&
      (forall j :: 0 <= j < i ==> hrefs[j] !in p.elements) &&
      Targets(hrefs, p)[0] == p.elements[hrefs[i]])
  {
    if hrefs[0] !in p.elements {
      var i :| 0 <= i < |hrefs| && hrefs[i] in p.elements;
      assert hrefs[1..][i - 1] == hrefs[i];
      TargetsFirst(hrefs[1..], p);
      var k :| 0 <= k < |hrefs[1..]| && hrefs[1..][k] in p.elements &&
        (forall j :: 0 <= j < k ==> hrefs[1..][j] !in p.elements) &&
        Targets(hrefs[1..], p)[0] == p.elements[hrefs[1..][k]];
      assert forall j :: 1 <= j < k + 1 ==> hrefs[j] == hrefs[1..][j - 1];
      assert hrefs[k + 1] == hrefs[1..][k];
    }
  }

  /** Appending one link appends its target, when it exists. */
  lemma TargetsSnoc(init: seq<string>, last: string, p: Page)
    ensures Targets(init + [last], p) ==
      Targets(init, p) + (if last in p.elements then [p.elements[last]] else [])
  {
    TargetsAppend(init, [last], p);
    assert [last][1..] == [];
  }

  /** The last target is the element of the last link whose target
      exists. */
  lemma {:induction false} TargetsLast(hrefs: seq<string>, p: Page)
    requires exists i :: 0 <= i < |hrefs| && hrefs[i] in p.elements
    ensures Targets(hrefs, p) != []
    ensures exists i :: (0 <= i < |hrefs| && hrefs[i] in p.elements &&
      (forall j :: i < j < |hrefs| ==> hrefs[j] !in p.elements) &&
      Targets(hrefs, p)[|Targets(hrefs, p)| - 1] == p.elements[hrefs[i]])
  {
    var n := |hrefs| - 1;
    var init := hrefs[..n];
    assert hrefs == init + [hrefs[n]];
    TargetsSnoc(init, hrefs[n], p);
    if hrefs[n] !in p.elements {
      var t := Targets(init, p);
      assert Targets(hrefs, p) == t;
      var i :| 0 <= i < |hrefs| && hrefs[i] in p.elements;
      assert init[i] == hrefs[i];
      TargetsLast(init, p);
      var k :| 0 <= k < |init| && init[k] in p.elements &&
        (forall j :: k < j < |init| ==> init[j] !in p.elements) &&
        t[|t| - 1] == p.elements[init[k]];
      assert hrefs[k] == init[k];
      assert forall j :: k < j < |hrefs| ==> hrefs[j] !in p.elements by {
        forall j | k < j < |hrefs| ensures hrefs[j] !in p.elements {
          if j < n { assert hrefs[j] == init[j]; }
        }
      }
    } else {
      assert Targets(hrefs, p)[|Targets(hrefs, p)| - 1] == p.elements[hrefs[n]];
    }
  }

  /** At the bottom, with some target existing, the script activates the id
      of the last link whose target exists. */
  lemma ScriptBottomPicksLastExisting(hrefs: seq<string>, p: Page)
    requires AtBottom(p.scrollY, p.innerHeight, DocHeight(p))
    requires exists i :: 0 <= i < |hrefs| && hrefs[i] in p.elements
    ensures exists i :: (0 <= i < |hrefs| && hrefs[i] in p.elements &&
      (forall j :: i < j < |hrefs| ==> hrefs[j] !in p.elements) &&
      ScriptScrollUpdate(hrefs, p) == Activate(Some(p.elements[hrefs[i]].id)))
  {
    TargetsLast(hrefs, p);
  }

  /** Away from the bottom, with some target existing, the script activates
      the id of the last reached target in link order, or of the first
      existing target when none is reached. */
  lemma ScriptLoopPicksLastReached(hrefs: seq<string>, p: Page)
    requires !AtBottom(p.scrollY, p.innerHeight, DocHeight(p))
    requires exists i :: 0 <= i < |hrefs| && hrefs[i] in p.elements
    ensures var items := Targets(hrefs, p);
      items != [] &&
      ((forall k :: 0 <= k < |items| ==> !ElementReached(p, items[k])) ==>
         ScriptScrollUpdate(hrefs, p) == Activate(Some(items[0].id))) &&
      ((exists k :: 0 <= k < |items| && ElementReached(p, items[k])) ==>
         exists k :: 0 <= k < |items| && ElementReached(p, items[k]) &&
           (forall j :: k < j < |items| ==> !ElementReached(p, items[j])) &&
           ScriptScrollUpdate(hrefs, p) == Activate(Some(items[k].id)))
  {
    TargetsFirst(hrefs, p);
    var items := Targets(hrefs, p);
    LastReachedIdIsLastReached(items, p, Some(items[0].id));
  }

  /** No target is found exactly when no link's target exists. */
  lemma {:induction false} TargetsEmptyIff(hrefs: seq<string>, p: Page)
    ensures Targets(hrefs, p) == [] <==> forall i :: 0 <= i < |hrefs| ==> hrefs[i] !in p.elements
  {
    if hrefs != [] {
      TargetsEmptyIff(hrefs[1..], p);
      assert forall i :: 1 <= i < |hrefs| ==> hrefs[i] == hrefs[1..][i - 1];
    }
  }

  /** The script variant leaves the links alone exactly when there are none,
      or when the page is at the bottom and no link's target exists. */
  lemma ScriptUnchangedIff(hrefs: seq<string>, p: Page)
    ensures ScriptScrollUpdate(hrefs, p) == Unchanged <==>
      hrefs == [] ||
      (AtBottom(p.scrollY, p.innerHeight, DocHeight(p)) &&
       forall i :: 0 <= i < |hrefs| ==> hrefs[i] !in p.elements)
  {
    TargetsEmptyIff(hrefs, p);
  }

  /** Only existing targets take part: an id the script activates is the id
      of an element some link selects, and the id is `undefined` exactly
      when links exist, the page is not at the bottom and no target exists. */
  lemma ScriptActivatesExistingTarget(hrefs: seq<string>, p: Page)
    ensures ScriptScrollUpdate(hrefs, p).Activate? && ScriptScrollUpdate(hrefs, p).id.Some? ==>
      exists i :: 0 <= i < |hrefs| && hrefs[i] in p.elements &&
        p.elements[hrefs[i]].id == ScriptScrollUpdate(hrefs, p).id.value
    ensures ScriptScrollUpdate(hrefs, p) == Activate(None) <==>
      hrefs != [] && !AtBottom(p.scrollY, p.innerHeight, DocHeight(p)) &&
      forall i :: 0 <= i < |hrefs| ==> hrefs[i] !in p.elements
  {
    var items := Targets(hrefs, p);
    TargetsAreExistingTargets(hrefs, p);
    TargetsEmptyIff(hrefs, p);
    if hrefs != [] && items != [] {
      assert items[0] in items;
      assert items[|items| - 1] in items;
      LastReachedIdFromItems(items, p, Some(items[0].id));
      var u := ScriptScrollUpdate(hrefs, p);
      if u.Activate? && u.id.Some? {
        var k: nat :| k < |items| && u.id.value == items[k].id;
        assert items[k] in items;
      }
    } else if hrefs != [] {
      LastReachedIdFromItems(items, p, None);
    }
  }

  /** A page is consistent when the selector `#x` finds the element whose
      id is `x`, as it does for the site's own anchors. */
  predicate Consistent(p: Page) {
    forall h :: h in p.elements ==> h == "#" + p.elements[h].id
  }

  /** Over the same links, all with existing targets, the two loops pick the
      same section. */
  lemma {:induction false} LastReachedAgree(hrefs: seq<string>, items: seq<Element>, p: Page, dId: string, dHash: string)
    requires |items| == |hrefs|
    requires forall i :: 0 <= i < |hrefs| ==> hrefs[i] in p.elements && items[i] == p.elements[hrefs[i]]
    requires Consistent(p)
    requires dHash == "#" + dId
    ensures LastReachedId(items, p, Some(dId)).Some?
    ensures "#" + LastReachedId(items, p, Some(dId)).value == LastReachedHash(hrefs, p, dHash)
  {
    if hrefs != [] {
      var n := |hrefs| - 1;
      assert hrefs[n] == "#" + items[n].id;
      assert HashReached(p, hrefs[n]) == ElementReached(p, items[n]);
      LastReachedAgree(hrefs[..n], items[..n], p, dId, dHash);
    }
  }

  /** When every declared link's target exists, selectors find their own ids,
      and the body is no taller than the root element, the script variant
      activates the id of exactly the hash the React variant marks. */
  lemma {:induction false} VariantsAgreeWhenAllTargetsExist(hrefs: seq<string>, p: Page)
    requires hrefs != []
    requires forall i :: 0 <= i < |hrefs| ==> hrefs[i] in p.elements
    requires Consistent(p)
    requires p.bodyScrollHeight <= p.rootScrollHeight
    ensures ScriptScrollUpdate(hrefs, p).Activate?
    ensures "#" + Interpolate(ScriptScrollUpdate(hrefs, p).id) == ReactActive(hrefs, p)
  {
    var items := Targets(hrefs, p);
    TargetsWhenAllExist(hrefs, p);
    var n := |hrefs| - 1;
    assert hrefs[n] == "#" + items[n].id;
    assert hrefs[0] == "#" + items[0].id;
    if !AtBottom(p.scrollY, p.innerHeight, DocHeight(p)) {
      LastReachedAgree(hrefs, items, p, items[0].id, hrefs[0]);
    }
  }

  /** Where the variants part: with the first section missing and nothing
      reached, React still marks the first declared hash, while the script
      marks the first section that exists. */
  lemma VariantsDifferWhenFirstTargetMissing()
    ensures
      var p := Page(map["#b" := Element("b", 1000, 1000)], None, 0, 100, 5000, 5000);
      ReactActive(["#a", "#b"], p) == "#a" &&
      ScriptScrollUpdate(["#a", "#b"], p) == Activate(Some("b"))
  {
    var p := Page(map["#b" := Element("b", 1000, 1000)], None, 0, 100, 5000, 5000);
    assert ["#a", "#b"][1..] == ["#b"];
    assert Targets(["#a", "#b"], p) == [Element("b", 1000, 1000)];
    assert !HashReached(p, "#b");
    assert ["#a", "#b"][..1] == ["#a"];
    assert LastReachedHash(["#a"], p, "#a") == LastReachedHash([], p, "#a");
  }

  /** Where the variants part: with a body taller than the root element,
      React's clamp (root height only) already fires while the script's
      (the larger height) does not, so React marks the last hash and the
      script the first, the only section reached. */
  lemma VariantsDifferWhenBodyTaller()
    ensures
      var p := Page(map["#a" := Element("a", 0, 0), "#b" := Element("b", 5000, 5000)],
                    None, 0, 1000, 9000, 1000);
      ReactActive(["#a", "#b"], p) == "#b" &&
      ScriptScrollUpdate(["#a", "#b"], p) == Activate(Some("a"))
  {
    var p := Page(map["#a" := Element("a", 0, 0), "#b" := Element("b", 5000, 5000)],
                  None, 0, 1000, 9000, 1000);
    var items := [Element("a", 0, 0), Element("b", 5000, 5000)];
    assert ["#a", "#b"][1..] == ["#b"];
    assert ["#b"][1..] == [];
    assert Targets(["#a", "#b"], p) == items;
    assert items[..1] == [Element("a", 0, 0)];
    assert ElementReached(p, items[0]) && !ElementReached(p, items[1]);
  }

  /** Where the variants part: when the selector `#a` finds an element whose
      id is not `a`, React marks `#a` while the script looks for `#x`. */
  lemma VariantsDifferWhenIdsDiffer()
    ensures
      var p := Page(map["#a" := Element("x", 0, 0)], None, 0, 100, 5000, 5000);
      ReactActive(["#a"], p) == "#a" &&
      "#" + Interpolate(ScriptScrollUpdate(["#a"], p).id) == "#x"
  {
    var p := Page(map["#a" := Element("x", 0, 0)], None, 0, 100, 5000, 5000);
    assert ["#a"][1..] == [];
    assert Targets(["#a"], p) == [Element("x", 0, 0)];
  }

  // ---------------------------------------------------------------------
  // Link clicks
  // ---------------------------------------------------------------------

  /** Where a link click scrolls to: the target's document offset minus the
      bar's height minus the margin, capped at the largest scroll offset
      `docH - viewport`. There is no lower cap. */
  function ScrollTarget(rectTop: int, scrollY: int, navH: int, docH: int, viewport: int): (top: int)
    ensures top <= docH - viewport
    ensures rectTop + scrollY - navH - Margin <= docH - viewport ==>
      top == rectTop + scrollY - navH - Margin
    ensures top == rectTop + scrollY - navH - Margin || top == docH - viewport
  {
    var top := rectTop + scrollY - navH - Margin;
    var max := docH - viewport;
    if top > max then max else top
  }

  /** One element on the path from a click's target up to the document:
      whether it is an `<a>`, and its `href` attribute if it has one. */
  datatype Node = Node(isAnchor: bool, href: Option<string>)

  /** The selector `a[href^="#"]`. */
  predicate IsHashLink(n: Node) {
    n.isAnchor && n.href.Some? && "#" <= n.href.value
  }

  /** `target.closest('a[href^="#"]')`, reduced to that anchor's href: the
      first node on the path (the target itself first) matching the selector. */
  function ClosestHashLink(path: seq<Node>): (r: Option<string>)
    ensures r.Some? <==> exists i :: 0 <= i < |path| && IsHashLink(path[i])
    ensures r.Some? ==> "#" <= r.value
    ensures r.Some? ==> exists i :: (0 <= i < |path| && IsHashLink(path[i]) && path[i].href == r &&
                                     forall j :: 0 <= j < i ==> !IsHashLink(path[j]))
  {
    if path == [] then None
    else if IsHashLink(path[0]) then path[0].href
    else
      var r := ClosestHashLink(path[1..]);
      assert forall i :: 0 <= i < |path[1..]| ==> path[1..][i] == path[i + 1];
      assert forall i :: 1 <= i < |path| ==> path[i] == path[1..][i - 1];
      r
  }

  /** What a document click does in the script variant: nothing, or a scroll
      to `top` and, when the target has a non-empty id, marking it active. */
  datatype ClickEffect = Ignored | ScrollTo(top: int, activate: Option<string>)

  /** The script variant's click handler: no internal anchor or no target
      means nothing happens; otherwise scroll to the capped target and mark
      the target's id active unless it is empty. */
  function SmoothScrollClick(path: seq<Node>, p: Page): (e: ClickEffect)
    ensures e.Ignored? <==>
      ClosestHashLink(path).None? || ClosestHashLink(path).value !in p.elements
    ensures e.ScrollTo? ==>
      var t := p.elements[ClosestHashLink(path).value];
      e.top <= DocHeight(p) - p.innerHeight &&
      e.top == ScrollTarget(t.rectTop, p.scrollY, NavHeight(p), DocHeight(p), p.innerHeight) &&
      (e.activate.Some? <==> t.id != "") &&
      (e.activate.Some? ==> e.activate.value == t.id)
  {
    var link := ClosestHashLink(path);
    if link.None? || link.value !in p.elements then Ignored
    else
      var target := p.elements[link.value];
      var top := ScrollTarget(target.rectTop, p.scrollY, NavHeight(p), DocHeight(p), p.innerHeight);
      ScrollTo(top, if target.id != "" then Some(target.id) else None)
  }
}
