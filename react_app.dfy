/** The React rewrite of the site (react-resume/src/App.jsx): the theme hook,
    the navigation bar's active-section state, and a project card's image
    index. */
module ReactApp {
  import opened Dom
  import opened ScrollSpy
  import opened Carousel
  import opened Theme

  /** The navigation bar's declared section hashes, in page order. */
  const NavLinks: seq<string> :=
    ["#contacts", "#projects", "#languages", "#skills", "#education", "#experience", "#about"]

  /** `onScroll`'s computation: the boundary loop over every declared hash,
      skipping those whose element is missing, then the bottom clamp. */
  method ComputeActive(links: seq<string>, p: Page) returns (current: string)
    requires links != []
    ensures current in links
    ensures AtBottom(p.scrollY, p.innerHeight, p.rootScrollHeight) ==> current == links[|links| - 1]
    ensures !AtBottom(p.scrollY, p.innerHeight, p.rootScrollHeight) ==>
      current == LastReachedHash(links, p, links[0])
  {
    var navH := NavHeight(p);
    var y := p.scrollY;
    current := links[0];
    for i := 0 to |links|
      invariant current == LastReachedHash(links[..i], p, links[0])
    {
      assert links[..i + 1][..i] == links[..i];
      var hash := links[i];
      if hash !in p.elements {
        continue;
      }
      var boundary := Boundary(p.elements[hash].offsetTop, navH);
      if boundary <= y {
        current := hash;
      }
    }
    assert links[..|links|] == links;
    if p.scrollY + p.innerHeight >= p.rootScrollHeight - BottomSlack {
      current := links[|links| - 1];
    } else {
      LastReachedHashDeclared(links, p, links[0]);
    }
  }

  /** The `Nav` component's state: the hash of the highlighted link. */
  class Nav {
    var active: string

    constructor ()
      ensures active == "#contacts"
    {
      active := "#contacts";
    }

    /** The scroll and resize listener. */
    method OnScroll(p: Page)
      modifies this
      ensures active == ReactActive(NavLinks, p)
      ensures active in NavLinks
    {
      active := ComputeActive(NavLinks, p);
    }

    /** A click on the link for `hash`: scroll to the capped target and mark
        the hash active at once. A hash whose element is missing makes the
        handler throw before it scrolls or marks anything (`None`). */
    method OnLink(hash: string, p: Page) returns (top: Option<int>)
      modifies this
      ensures hash !in p.elements ==> top.None? && active == old(active)
      ensures hash in p.elements ==>
        var el := p.elements[hash];
        top == Some(ScrollTarget(el.rectTop, p.scrollY, NavHeight(p), DocHeight(p), p.innerHeight)) &&
        active == hash
    {
      if hash !in p.elements {
        return None;
      }
      var el := p.elements[hash];
      var navH := NavHeight(p);
      var docH := DocHeight(p);
      var viewport := p.innerHeight;
      top := Some(ScrollTarget(el.rectTop, p.scrollY, navH, docH, viewport));
      active := hash;
    }
  }

  /** `useTheme`: the document's `data-theme` attribute and local storage. */
  class ThemeHook {
    var dataTheme: Option<string>
    var storage: map<string, string>

    constructor (storage: map<string, string>)
      ensures this.storage == storage && dataTheme.None?
    {
      this.storage := storage;
      dataTheme := None;
    }

    /** The mount effect: apply the saved theme, or the environment's. */
    method Init(prefersDark: bool)
      modifies this
      ensures dataTheme == Some(InitialTheme(Saved(old(storage), ThemeKey), prefersDark))
      ensures storage == old(storage)
    {
      var saved := Saved(storage, ThemeKey);
      dataTheme := Some(InitialTheme(saved, prefersDark));
    }

    /** `toggle`: flip the applied theme and persist the value applied. */
    method Toggle()
      modifies this
      ensures dataTheme == Some(ToggledTheme(old(dataTheme)))
      ensures dataTheme.value == Dark || dataTheme.value == Light
      ensures storage == old(storage)[ThemeKey := dataTheme.value]
    {
      var next := ToggledTheme(dataTheme);
      dataTheme := Some(next);
      storage := storage[ThemeKey := next];
    }
  }

  /** `ProjectCard`: the index of the image a card shows. */
  class ProjectCard {
    const images: seq<string>
    var index: int

    ghost predicate Valid()
      reads this
    {
      |images| >= 1 && 0 <= index < |images|
    }

    constructor (images: seq<string>)
      requires |images| >= 1
      ensures this.images == images && index == 0 && Valid()
    {
      this.images := images;
      index := 0;
    }

    /** The image on show: always one of the card's images. */
    function Shown(): (r: string)
      reads this
      requires Valid()
      ensures r in images
    {
      images[index]
    }

    /** `setSlide(i)`: store `(i + n) % n`. */
    method SetSlide(i: int)
      requires |images| >= 1
      modifies this
      ensures index == Wrap(i, |images|)
    {
      index := JsRem(i + |images|, |images|);
    }

    /** The right arrow, and a click on the card's image area. */
    method Forward()
      requires Valid()
      modifies this
      ensures Valid() && index == Next(old(index), |images|)
      ensures index == if old(index) == |images| - 1 then 0 else old(index) + 1
    {
      StepsStayInRange(index, |images|);
      SetSlide(index + 1);
    }

    /** The left arrow. */
    method Back()
      requires Valid()
      modifies this
      ensures Valid() && index == Prev(old(index), |images|)
      ensures index == if old(index) == 0 then |images| - 1 else old(index) - 1
    {
      StepsStayInRange(index, |images|);
      SetSlide(index - 1);
    }
  }
}
