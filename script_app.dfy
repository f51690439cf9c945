/** The plain script variant of the site (script.js): the navigation links'
    `active` classes, the document click handler, the theme toggle button,
    the project carousels and the heading's typing effect. */
module ScriptApp {
  import opened Dom
  import opened ScrollSpy
  import opened Carousel
  import opened Theme
  import opened Typing

  /** `updateActiveNavOnScroll`'s computation: the bottom test first, with
      an early return, then the boundary loop over the existing targets. */
  method ScrollUpdate(hrefs: seq<string>, p: Page) returns (u: NavUpdate)
    ensures u == ScriptScrollUpdate(hrefs, p)
  {
    if |hrefs| == 0 {
      return Unchanged;
    }
    var items := Targets(hrefs, p);
    var navHeight := NavHeight(p);
    var scrollYVal := p.scrollY;
    var viewport := p.innerHeight;
    var docHeight := DocHeight(p);
    if scrollYVal + viewport >= docHeight - BottomSlack {
      if items != [] {
        return Activate(Some(items[|items| - 1].id));
      }
      return Unchanged;
    }
    var dflt := if items == [] then None else Some(items[0].id);
    var currentId := dflt;
    for k := 0 to |items|
      invariant currentId == LastReachedId(items[..k], p, dflt)
    {
      assert items[..k + 1][..k] == items[..k];
      var boundary := Boundary(items[k].offsetTop, navHeight);
      if boundary <= scrollYVal {
        currentId := Some(items[k].id);
      }
    }
    assert items[..|items|] == items;
    u := Activate(currentId);
  }

  /** The links under `.nav__links` and which of them carry `active`. */
  class NavBar {
    const hrefs: seq<string>
    var marked: seq<bool>

    ghost predicate Valid()
      reads this
    {
      |marked| == |hrefs|
    }

    constructor (hrefs: seq<string>)
      ensures this.hrefs == hrefs && Valid()
      ensures forall i :: 0 <= i < |hrefs| ==> !marked[i]
    {
      this.hrefs := hrefs;
      marked := seq(|hrefs|, _ => false);
    }

    /** `setActiveById(id)`: every link is marked exactly when its href is
        `#` followed by the id (`#undefined` when there is none). */
    method SetActiveById(id: Option<string>)
      requires Valid()
      modifies this
      ensures Valid()
      ensures forall i :: 0 <= i < |hrefs| ==> marked[i] == (hrefs[i] == "#" + Interpolate(id))
    {
      var wanted := "#" + Interpolate(id);
      var i := 0;
      while i < |hrefs|
        invariant 0 <= i <= |hrefs| && |marked| == |hrefs|
        invariant forall k :: 0 <= k < i ==> marked[k] == (hrefs[k] == wanted)
      {
        marked := marked[i := hrefs[i] == wanted];
        i := i + 1;
      }
    }

    /** The scroll, resize and load listener. */
    method UpdateActiveNavOnScroll(p: Page)
      requires Valid()
      modifies this
      ensures Valid()
      ensures ScriptScrollUpdate(hrefs, p) == Unchanged ==> marked == old(marked)
      ensures ScriptScrollUpdate(hrefs, p).Activate? ==>
        forall i :: 0 <= i < |hrefs| ==>
          marked[i] == (hrefs[i] == "#" + Interpolate(ScriptScrollUpdate(hrefs, p).id))
    {
      var u := ScrollUpdate(hrefs, p);
      if u.Activate? {
        SetActiveById(u.id);
      }
    }

    /** The document click listener: for a click inside an internal anchor
        whose target exists, the scroll offset it scrolls to, after marking
        the target's link when the target has an id. */
    method OnClick(path: seq<Node>, p: Page) returns (top: Option<int>)
      requires Valid()
      modifies this
      ensures Valid()
      ensures SmoothScrollClick(path, p).Ignored? ==> top.None? && marked == old(marked)
      ensures SmoothScrollClick(path, p).ScrollTo? ==> top == Some(SmoothScrollClick(path, p).top)
      ensures SmoothScrollClick(path, p).ScrollTo? && SmoothScrollClick(path, p).activate.None? ==>
        marked == old(marked)
      ensures SmoothScrollClick(path, p).ScrollTo? && SmoothScrollClick(path, p).activate.Some? ==>
        forall i :: 0 <= i < |hrefs| ==>
          marked[i] == (hrefs[i] == "#" + SmoothScrollClick(path, p).activate.value)
    {
      var link := ClosestHashLink(path);
      if link.None? {
        return None;
      }
      if link.value !in p.elements {
        return None;
      }
      var target := p.elements[link.value];
      var navHeight := NavHeight(p);
      var docHeight := DocHeight(p);
      var viewport := p.innerHeight;
      top := Some(ScrollTarget(target.rectTop, p.scrollY, navHeight, docHeight, viewport));
      if target.id != "" {
        SetActiveById(Some(target.id));
      }
    }
  }

  /** The theme's page state: the `data-theme` attribute, local storage,
      and the `.theme-toggle` button with its `<i>` icon, if present. */
  class ThemeToggle {
    var dataTheme: Option<string>
    var storage: map<string, string>
    const hasButton: bool
    const hasIcon: bool
    var ariaPressed: Option<string>
    var iconClasses: set<string>
    var bound: bool

    /** The listener exists only when the button does. */
    ghost predicate Valid()
      reads this
    {
      bound ==> hasButton
    }

    constructor (storage: map<string, string>, hasButton: bool, hasIcon: bool, iconClasses: set<string>)
      ensures this.storage == storage && this.hasButton == hasButton && this.hasIcon == hasIcon
      ensures this.iconClasses == iconClasses && dataTheme.None? && ariaPressed.None? && !bound
      ensures Valid()
    {
      this.storage := storage;
      this.hasButton := hasButton;
      this.hasIcon := hasIcon;
      this.iconClasses := iconClasses;
      dataTheme := None;
      ariaPressed := None;
      bound := false;
    }

    /** `applyTheme(theme)`: set the attribute and, when the button exists,
        its pressed state and (when the icon exists) exactly one theme icon. */
    method ApplyTheme(theme: string)
      modifies this
      ensures dataTheme == Some(theme) && storage == old(storage) && bound == old(bound)
      ensures hasButton ==> ariaPressed == Some(AriaPressed(theme))
      ensures !hasButton ==> ariaPressed == old(ariaPressed)
      ensures hasButton && hasIcon ==> iconClasses == ThemeIcon(old(iconClasses), theme)
      ensures !(hasButton && hasIcon) ==> iconClasses == old(iconClasses)
    {
      dataTheme := Some(theme);
      if hasButton {
        ariaPressed := Some(AriaPressed(theme));
        if hasIcon {
          iconClasses := ThemeIcon(iconClasses, theme);
        }
      }
    }

    /** `initTheme`: apply the saved theme, or the environment's. */
    method InitTheme(prefersDark: bool)
      modifies this
      ensures dataTheme == Some(InitialTheme(Saved(old(storage), ThemeKey), prefersDark))
      ensures storage == old(storage) && bound == old(bound)
      ensures hasButton ==> ariaPressed == Some(AriaPressed(dataTheme.value))
      ensures !hasButton ==> ariaPressed == old(ariaPressed)
      ensures hasButton && hasIcon ==> iconClasses == ThemeIcon(old(iconClasses), dataTheme.value)
      ensures !(hasButton && hasIcon) ==> iconClasses == old(iconClasses)
    {
      var saved := Saved(storage, ThemeKey);
      ApplyTheme(InitialTheme(saved, prefersDark));
    }

    /** `bindThemeToggle`: the click listener exists only on a button. */
    method BindThemeToggle()
      requires Valid()
      modifies this
      ensures Valid()
      ensures bound == (old(bound) || hasButton)
      ensures dataTheme == old(dataTheme) && storage == old(storage)
      ensures ariaPressed == old(ariaPressed) && iconClasses == old(iconClasses)
    {
      if hasButton {
        bound := true;
      }
    }

    /** A click on the toggle button: with the listener bound, flip the
        theme, apply it and persist the value applied. */
    method Click()
      requires Valid()
      modifies this
      ensures Valid() && bound == old(bound)
      ensures !bound ==> (dataTheme == old(dataTheme) && storage == old(storage) &&
                          ariaPressed == old(ariaPressed) && iconClasses == old(iconClasses))
      ensures bound ==> (dataTheme == Some(ToggledTheme(old(dataTheme))) &&
                         storage == old(storage)[ThemeKey := dataTheme.value] &&
                         ariaPressed == Some(AriaPressed(dataTheme.value)) &&
                         (hasIcon ==> iconClasses == ThemeIcon(old(iconClasses), dataTheme.value)) &&
                         (!hasIcon ==> iconClasses == old(iconClasses)))
    {
      if bound {
        var next := ToggledTheme(dataTheme);
        ApplyTheme(next);
        storage := storage[ThemeKey := next];
      }
    }
  }

  /** One `.project-card`'s carousel: the index and the image's `src`. */
  class ProjectCarousel {
    const images: seq<string>
    var index: int
    var src: string

    ghost predicate Valid()
      reads this
    {
      |images| >= 1 && 0 <= index < |images| && src == images[index]
    }

    /** Card set-up ends with `setSlide(0)`. */
    constructor (images: seq<string>)
      requires |images| >= 1
      ensures this.images == images && index == 0 && src == images[0] && Valid()
    {
      this.images := images;
      index := 0;
      src := images[0];
      new;
      SetSlide(0);
    }

    /** `setSlide(i)`: store `(i + n) % n` and show that image. Every call
        the page makes is at `-n` or above. */
    method SetSlide(i: int)
      requires |images| >= 1 && i >= -|images|
      modifies this
      ensures index == Wrap(i, |images|) && Valid()
    {
      WrapIsIndex(i, |images|);
      index := JsRem(i + |images|, |images|);
      src := images[index];
    }

    /** The left arrow. */
    method Left()
      requires Valid()
      modifies this
      ensures Valid() && index == Prev(old(index), |images|)
      ensures index == if old(index) == 0 then |images| - 1 else old(index) - 1
    {
      StepsStayInRange(index, |images|);
      SetSlide(index - 1);
    }

    /** The right arrow. */
    method Right()
      requires Valid()
      modifies this
      ensures Valid() && index == Next(old(index), |images|)
      ensures index == if old(index) == |images| - 1 then 0 else old(index) + 1
    {
      StepsStayInRange(index, |images|);
      SetSlide(index + 1);
    }
  }

  /** The page heading `.header h1`; `frames` records every text it shows
      while the typing effect runs. */
  class Heading {
    var textContent: string
    ghost var frames: seq<string>

    constructor (text: string)
      ensures textContent == text && frames == []
    {
      textContent := text;
      frames := [];
    }
  }

  /** The typing effect: with a heading whose trimmed text is non-empty,
      clear it and append one character per timer tick until the whole
      trimmed text is shown; the chain of `setTimeout` calls is the loop. */
  method TypingEffect(h: Heading?)
    modifies h
    ensures h != null ==>
      var full := Trim(old(h.textContent));
      (full == [] ==> h.textContent == old(h.textContent) && h.frames == old(h.frames)) &&
      (full != [] ==>
        h.textContent == full &&
        |h.frames| == |full| + 1 &&
        (forall k :: 0 <= k <= |full| ==> h.frames[k] == full[..k]))
  {
    if h == null {
      return;
    }
    var fullText := Trim(h.textContent);
    if fullText == [] {
      return;
    }
    h.textContent := [];
    h.frames := [h.textContent];
    var index := 0;
    while index < |fullText|
      invariant 0 <= index <= |fullText|
      invariant h.textContent == fullText[..index]
      invariant |h.frames| == index + 1
      invariant forall k :: 0 <= k <= index ==> h.frames[k] == fullText[..k]
    {
      h.textContent := h.textContent + [fullText[index]];
      index := index + 1;
      assert h.textContent == fullText[..index];
      h.frames := h.frames + [h.textContent];
    }
    assert fullText[..|fullText|] == fullText;
  }
}
