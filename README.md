# Résumé site: navigation, carousel, theme and typing rules

This project models the decision rules inside a single-page résumé site that
exists in two variants: a plain script (`script.js`) and a React rewrite
(`react-resume/src/App.jsx`). Everything else in the site is markup and
styling.

The rules modelled:

- **Scroll tracker.** For a scroll offset, the tracker picks the section whose
  navigation link is highlighted. A section counts as reached when
  `offsetTop - navHeight - 6 <= scrollY`. The last reached section wins, and
  the first one is the default. Near the document's end (within 2 pixels),
  the last section is forced. The two variants differ, and both are modelled:
  - React loops over all seven declared hashes and skips those whose element
    is missing. It applies the bottom clamp after the loop, always picking the
    last declared hash. Its default is the first declared hash even when that
    element is missing.
  - The script keeps only the links whose target exists. It tests the bottom
    first and returns early. It does nothing when there are no links.
- **Link clicks.** A click scrolls to `top + scrollY - navHeight - 6`. The
  value is capped at `docHeight - viewport`, with no lower cap. The clicked
  section is marked active at once.
- **Project carousel.** `setSlide(i)` stores `(i + n) % n`, using
  JavaScript's truncating `%`.
- **Theme.** At start-up the saved value is used if it is truthy, otherwise
  the environment's dark preference decides. A toggle turns `dark` into
  `light` and anything else into `dark`, then applies and persists the new
  value. The script also sets the button's `aria-pressed` and its icon.
- **Typing effect.** The script types the heading's trimmed text one
  character per tick.

Modules: `Dom` (page snapshot and geometry), `ScrollSpy` (both trackers and
the click rules as pure functions), `Carousel`, `Theme`, `Typing` (pure
rules), `ReactApp` and `ScriptApp` (each variant's loops and stateful
handlers, as methods and classes).

Offsets and heights are integers. The page a handler reads is a `Dom.Page`
value. Its `elements` map stands for `document.querySelector`. Browser state
that a handler changes is a class field: `active`, `marked`, `dataTheme`,
`storage`, `ariaPressed`, `iconClasses`, `index`, `src` and `textContent`.

Some behaviour of the code is easy to misread. The model follows the code as
written:

- In `script.js`, the links may all lack an existing target while the page is
  not at the bottom. The script then calls `setActiveById(undefined)`, which
  compares every href with `"#undefined"`. So every link is unmarked, unless
  its href is literally `#undefined`, rather than nothing changing
  (`ScrollSpy.ScriptActivatesExistingTarget`,
  `ScriptApp.NavBar.UpdateActiveNavOnScroll`).
- The saved theme is used whenever it is truthy, so it need not be `light` or
  `dark`. Toggling twice restores a theme only when it is one of the two
  (`Theme.ToggleTwice`).
- React's bottom clamp reads only the root element's scroll height. Both
  variants' click handlers and the script's tracker use the larger of the
  body's and the root's.
- React's link handler dereferences the target without a check. A missing
  target makes it throw before it scrolls or marks anything
  (`ReactApp.Nav.OnLink` returns `None`).
- The two trackers pick the same section when three conditions hold: every
  target exists, every selector `#x` finds the element whose id is `x`, and
  the body is no taller than the root element
  (`ScrollSpy.VariantsAgreeWhenAllTargetsExist`). Each condition is needed.
  They differ when the first target is missing
  (`ScrollSpy.VariantsDifferWhenFirstTargetMissing`), when a selector finds an
  element with another id (`ScrollSpy.VariantsDifferWhenIdsDiffer`), and when
  the body is taller than the root, so that only React's clamp fires
  (`ScrollSpy.VariantsDifferWhenBodyTaller`).

## Model

| member | source | states |
|---|---|---|
| `ReactApp.ComputeActive` | react-resume/src/App.jsx:64-79 | The result is a declared hash. At the bottom it is the last declared hash. Otherwise it is the loop's last reached hash with default `links[0]`. The loop invariant ties each iteration to that value. |
| `ReactApp.Nav.OnScroll` | react-resume/src/App.jsx:63-83 | The stored active hash becomes the tracker's choice and is always one of the seven declared hashes. |
| `ReactApp.Nav.OnLink` | react-resume/src/App.jsx:87-99 | With an existing target: scrolls to the capped target and sets the active hash to exactly the clicked hash. With a missing target: nothing scrolls and the active hash is unchanged. |
| `ScrollSpy.LastReachedHash` | react-resume/src/App.jsx:68-74 | Definition of the boundary loop's value: the last declared hash, in order, whose element exists and whose boundary is at or above the scroll offset, else the default. Its meaning is proved in `ScrollSpy.LastReachedHashIsLastReached`. |
| `ScrollSpy.ReactActive` | react-resume/src/App.jsx:68-79 | Definition of React's choice: the last declared hash at the bottom (root height only), otherwise the boundary loop's value. Proved always declared in `ScrollSpy.ReactActiveIsDeclared` and met by `ReactApp.ComputeActive`. |
| `Dom.NavHeight` | react-resume/src/App.jsx:66 | The bar's height, or 0 when there is no `.nav` element (also script.js:51). |
| `Dom.AtBottom` | react-resume/src/App.jsx:76 | The bottom test: scroll offset plus viewport reaches within 2 pixels of the given height (also script.js:57). |
| `ReactApp.Nav.constructor` | react-resume/src/App.jsx:52 | The highlighted link starts as `#contacts`. |
| `ReactApp.ProjectCard.constructor` | react-resume/src/App.jsx:177 | A card starts at index 0. |
| `ReactApp.ProjectCard.Shown` | react-resume/src/App.jsx:193 | The image on show is always one of the card's images. |
| `ScrollSpy.LastReachedHashIsLastReached` | react-resume/src/App.jsx:68-74 | If no declared hash is reached, the loop yields its default. Otherwise it yields a reached hash, and no later hash is reached. |
| `ScrollSpy.LastReachedHashDeclared` | react-resume/src/App.jsx:68-74 | The loop yields either its default or a declared hash. |
| `ScrollSpy.ReactActiveIsDeclared` | react-resume/src/App.jsx:68-79 | The active hash, with or without the bottom clamp, is always a declared hash. |
| `ScrollSpy.MissingHashOnlyAsDefault` | react-resume/src/App.jsx:70-73 | A hash whose element is missing never wins the boundary test. It can result only as the default. |
| `ScrollSpy.VariantsDifferWhenFirstTargetMissing` | react-resume/src/App.jsx:68-74 | Example: the first section is missing and nothing is reached. React marks the missing first hash, while the script marks the first existing section. |
| `ScrollSpy.ScrollTarget` | react-resume/src/App.jsx:94-96 | The target never exceeds `docHeight - viewport`. It equals `offset + scrollY - navHeight - 6` whenever that is not larger, and is one of the two values otherwise. There is no lower cap. |
| `ScrollSpy.Targets` | script.js:46-48 | Definition of the filter: the elements of the links whose target exists, in link order. Its properties are the lemmas below. |
| `ScrollSpy.TargetsAppend` | script.js:46-48 | The filter keeps link order: the targets of two runs of links are the first run's targets followed by the second's. |
| `ScrollSpy.TargetsSnoc` | script.js:46-48 | Appending one link appends exactly its target, when that exists. |
| `ScrollSpy.TargetsFirst` | script.js:46-48 | With some target existing, the first item is the element of the first link whose target exists. |
| `ScrollSpy.TargetsLast` | script.js:46-48 | With some target existing, the last item is the element of the last link whose target exists. |
| `ScrollSpy.LastReachedId` | script.js:63-67 | Definition of the script loop's value: the id of the last reached item, else the default. Its meaning is proved in `ScrollSpy.LastReachedIdIsLastReached`. |
| `ScrollSpy.LastReachedIdIsLastReached` | script.js:63-67 | If no item is reached, the loop yields its default. Otherwise it yields the id of a reached item, and no later item is reached. |
| `ScrollSpy.ScriptScrollUpdate` | script.js:44-68 | Definition of one scroll update: no links, no change; at the bottom the last existing target or no change; otherwise the loop. Its meaning is proved in the lemmas below and met by `ScriptApp.ScrollUpdate`. |
| `ScrollSpy.Interpolate` | script.js:39 | The text `${id}` produces: the id itself, or `undefined` when there is none. |
| `ScrollSpy.ScriptBottomPicksLastExisting` | script.js:57-59 | At the bottom, with some target existing, the update activates the id of the last link whose target exists. |
| `ScrollSpy.ScriptLoopPicksLastReached` | script.js:63-68 | Away from the bottom, with some target existing: if no item is reached, the first existing target's id is activated; otherwise the id of a reached item after which none is reached. |
| `ScrollSpy.TargetsAreExistingTargets` | script.js:46-48 | The filtered items are exactly the elements selected by links whose target exists. |
| `ScrollSpy.TargetsEmptyIff` | script.js:46-48 | No item remains exactly when no link's target exists. |
| `ScrollSpy.TargetsWhenAllExist` | script.js:46-48 | When every target exists, the items are the links' elements, one for one and in order. |
| `ScrollSpy.LastReachedIdFromItems` | script.js:63-67 | Corollary of `ScrollSpy.LastReachedIdIsLastReached`: the loop yields its default or the id of one of the existing targets. |
| `ScrollSpy.ScriptUnchangedIff` | script.js:44-61 | The update changes nothing exactly in two cases: there are no links, or the page is at the bottom and no link's target exists. |
| `ScrollSpy.ScriptActivatesExistingTarget` | script.js:44-68 | Any activated id belongs to an existing target. The id is `undefined` exactly when links exist, the page is not at the bottom and no target exists. |
| `ScrollSpy.LastReachedAgree` | script.js:63-67 | Over links whose targets all exist and find their own ids, the script's loop picks the id of the hash React's loop picks. |
| `ScrollSpy.VariantsAgreeWhenAllTargetsExist` | script.js:43-69 | Assume every target exists, selectors find their own ids, and the body is no taller than the root. Then the script activates the id of exactly the hash React marks. |
| `ScrollSpy.VariantsDifferWhenBodyTaller` | script.js:54-58 | Example: the body is taller than the root. React's clamp, on the root height, fires and marks the last hash, while the script's does not and marks the first section. |
| `ScrollSpy.VariantsDifferWhenIdsDiffer` | script.js:39 | Example: the selector `#a` finds an element with id `x`. React marks `#a`, while the script marks links whose href is `#x`. |
| `ScriptApp.ScrollUpdate` | script.js:43-68 | The bottom test with early return, then the loop over existing targets starting from the first one's id. The loop invariant ties each iteration to the rule's value. |
| `ScriptApp.NavBar.SetActiveById` | script.js:37-41 | Afterwards a link is marked exactly when its href equals `#` plus the id, or `#undefined` when there is no id. Every other link is unmarked. |
| `ScriptApp.NavBar.UpdateActiveNavOnScroll` | script.js:43-69 | With no change due, the marks stay as they were. Otherwise exactly the links matching the chosen id are marked. |
| `ScrollSpy.ClosestHashLink` | script.js:102 | The result is the href of the first node on the path that is an anchor with an href starting with `#`. It is `None` exactly when no node on the path is one. |
| `ScrollSpy.SmoothScrollClick` | script.js:101-118 | Nothing happens exactly when there is no internal anchor or its target is missing. Otherwise the scroll target is capped, and the target's id is marked only when it is non-empty. |
| `ScriptApp.NavBar.OnClick` | script.js:101-118 | An ignored click returns no target and keeps every mark. Otherwise it returns the capped target. It re-marks the links for the target's id only when that id is non-empty. |
| `Dom.DocHeight` | script.js:54 | The document height is the larger of the body's and the root's scroll heights. |
| `Theme.Saved` | script.js:136 | `localStorage.getItem(key)`: the stored value, or `null` when the key was never set (also react-resume/src/App.jsx:36). |
| `Theme.Truthy` | script.js:138 | JavaScript truthiness of a value that may be `null`: set and non-empty. |
| `Theme.InitialTheme` | react-resume/src/App.jsx:36-38 | A truthy saved value is used as it is. Otherwise the theme is `dark` exactly when the environment prefers dark, and `light` otherwise. |
| `Theme.ToggledTheme` | react-resume/src/App.jsx:42-43 | The next theme is `light` exactly when the current one is `dark`. It is always `light` or `dark`, and an unset attribute turns `dark`. |
| `Theme.ToggleTwice` | react-resume/src/App.jsx:42-45 | Two toggles restore the theme exactly when it is `light` or `dark`. Any other value comes back as `light`. |
| `ReactApp.ThemeHook.Init` | react-resume/src/App.jsx:35-40 | The applied theme is the start-up choice from the saved value and the preference. Storage is untouched. |
| `ReactApp.ThemeHook.Toggle` | react-resume/src/App.jsx:41-46 | The applied theme is the toggled one, always `light` or `dark`. The same value is persisted under `theme`, and no other key changes. |
| `Theme.AriaPressed` | script.js:126 | `aria-pressed` is `"true"` exactly for `dark` and `"false"` otherwise. |
| `Theme.ThemeIcon` | script.js:128-130 | Exactly one theme icon remains: the sun for `dark` and the moon otherwise. Every other class is kept. |
| `ScriptApp.ThemeToggle.ApplyTheme` | script.js:122-133 | Sets the attribute. If the button exists, sets its pressed state, and if the icon exists, its single theme icon. Nothing else changes. |
| `ScriptApp.ThemeToggle.InitTheme` | script.js:135-139 | Applies the start-up choice from the saved value and the preference. If the button exists, sets its pressed state, and if the icon exists too, its single theme icon. Without them those fields are untouched, and storage is untouched. |
| `ScriptApp.ThemeToggle.BindThemeToggle` | script.js:141-150 | The click listener is bound exactly when the button exists. |
| `ScriptApp.ThemeToggle.Click` | script.js:144-149 | With the listener bound, applies the toggled theme, sets the pressed state and (with an icon) the single theme icon, leaves the icon's classes alone without one, and persists that same value. Unbound, nothing changes. |
| `Carousel.JsRem` | react-resume/src/App.jsx:180 | JavaScript's remainder: it lies strictly between `-n` and `n` and takes the dividend's sign. It equals Dafny's `%` on non-negative dividends and is its mirror on negative ones. |
| `Carousel.Wrap` | script.js:245 | `(i + n) % n` with JavaScript's `%` (also react-resume/src/App.jsx:180). Proved a valid index from `-n` upward in `Carousel.WrapIsIndex`. |
| `Carousel.Next` | script.js:255 | The right arrow's index, `setSlide(index + 1)` (also react-resume/src/App.jsx:189). Its behaviour is proved in `Carousel.StepsStayInRange`. |
| `Carousel.Prev` | script.js:254 | The left arrow's index, `setSlide(index - 1)` (also react-resume/src/App.jsx:190). Its behaviour is proved in `Carousel.StepsStayInRange`. |
| `Carousel.WrapIsIndex` | script.js:245 | For every `i >= -n`, `(i + n) % n` is a valid index equal to `i mod n`. |
| `Carousel.StepsStayInRange` | react-resume/src/App.jsx:189-194 | From a valid index both arrows give a valid index. Forward from `n-1` gives 0 and back from 0 gives `n-1`. Each arrow undoes the other. |
| `Carousel.ForwardFromFirst` | react-resume/src/App.jsx:177-194 | `k` forward steps from index 0 give index `k mod n`. |
| `ReactApp.ProjectCard.SetSlide` | react-resume/src/App.jsx:179-186 | The stored index is `(i + n) % n`. |
| `ReactApp.ProjectCard.Forward` | react-resume/src/App.jsx:189 | The index advances by one, wrapping to 0 after the last image, and stays valid. |
| `ReactApp.ProjectCard.Back` | react-resume/src/App.jsx:190 | The index goes back by one, wrapping to the last image from 0, and stays valid. |
| `ScriptApp.ProjectCarousel.constructor` | script.js:242-252 | A card starts at index 0 showing the first image. |
| `ScriptApp.ProjectCarousel.SetSlide` | script.js:244-247 | The stored index is `(i + n) % n`, and the image shown is the one at that index. |
| `ScriptApp.ProjectCarousel.Left` | script.js:254 | The left arrow decrements with wrap-around and keeps the image in step. |
| `ScriptApp.ProjectCarousel.Right` | script.js:255 | The right arrow increments with wrap-around and keeps the image in step. |
| `Typing.LeadingSpace` | script.js:8 | The count covers exactly the white space that opens the text, up to its first other character. |
| `Typing.TrailingSpace` | script.js:8 | The position is where the trailing white space starts, just after the last other character. |
| `Typing.Trim` | script.js:8 | The result is the slice between the leading and the trailing white space. It neither starts nor ends with white space, and is empty exactly when the text is all white space. |
| `Typing.TrimIdempotent` | script.js:8 | Trimming a trimmed text changes nothing. |
| `ScriptApp.TypingEffect` | script.js:6-20 | When the trimmed text is empty, nothing changes. Otherwise the heading shows the first `k` characters after `k` ticks, for every `k` up to the full length. It stops exactly when the full trimmed text is shown. |

## Left out

- Querying the DOM, registering and removing event listeners, JSX rendering and the project content strings are not modelled. Every project lists three images; the carousel needs only that a list is non-empty.
- The section reveal (IntersectionObserver) and the skills animation are left out. Both are one-shot visual effects driven by callbacks.
- React's 120 ms fade and the `onload` class removal are left out. As a consequence the index change is modelled as immediate, although React applies it after the timer. A second click inside those 120 ms still reads the old index.
- The avatar upload (FileReader) and the try/catch around storage writes are left out: both are asynchronous browser calls.
- `window.scrollTo`'s smooth animation and `window.open` are left out. Only the computed scroll target is modelled. In the script variant an arrow click also bubbles to the image area, which opens the project link; that effect is not modelled.
- Geometry from `getBoundingClientRect` is a floating-point value in the browser. Here every offset and height is an integer.
- `querySelector` is a lookup by selector. The model omits the exception an invalid selector raises (for example an href of just `#`) and links without an `href` attribute.
- `initProjects`' walk over the cards is left out: skipping a card whose project key is unknown, and filling in its title, description and link. Only each card's carousel is modelled.
- The typing effect's 80 ms ticks are modelled as loop iterations. Events that interleave with the ticks are not modelled.
- `ScriptApp.ProjectCarousel.SetSlide`: requires `i >= -n`. For `i < -n`, JavaScript's `%` gives a negative index; `Carousel.JsRem` captures that value, but the method does not model the resulting missing image. The page only calls it with `index - 1` or `index + 1` from a valid index.
- `ScriptApp.TypingEffect`: counts characters as Unicode scalar values, while `fullText.length` and `charAt` count UTF-16 code units. For text outside the Basic Multilingual Plane the page takes two ticks per such character and shows a lone surrogate in between; the model shows the whole character in one tick.
