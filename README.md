# Portfolio site script — a verified Dafny model

This project models the parts of the portfolio site's `script.js` that hold
logic beyond DOM wiring:

- **Form validation** (`form_validation.dfy`, module `FormValidation`): the
  e-mail pattern `^[^\s@]+@[^\s@]+\.[^\s@]+$` and the optional phone pattern
  `^[\d\s\-\+\(\)]+$`, both written as predicates over `string` rather than as
  regular expressions; `validateField`, the ordered per-field decision over an
  input's `required`, `type` and `value`; the contact form's submit pass, which
  validates every field without stopping at the first failure; and the CV
  form's ordered file checks (a file is selected, it is at most 5 MiB, its MIME
  type is PDF, DOC or DOCX).
- **JavaScript text semantics** (`js_text.dfy`, module `JsText`): the `\s`
  character class and `String.prototype.trim`, which remove the same set of
  characters, and `!value.trim()` ("blank").
- **The hero cursor effect** (`hero_cursor.dfy`, module `HeroCursor`): the
  class `HeroCursorEffect` with its fields `particles`, `mouseX`, `mouseY` and
  `isHeroHovered`; the mouse enter/leave/move handlers; and one `animate` tick,
  split into the nested loops that find the pairs of particles joined by a
  line (`FindLinks`) and the `filter` that advances every particle and keeps
  those with life left (`AdvanceAll`). Each loop is proved against a
  specification function (`Links`, `Survivors`) whose properties are proved as
  lemmas.
- **The sticky navbar** (`navbar.dfy`, module `Navbar`): the scroll handler
  adds the class `scrolled` past 100 pixels and removes it otherwise.

Numbers are exact: positions, velocities, life and scroll offsets are `real`,
file sizes are `nat`. The distance test `Math.sqrt(dx*dx + dy*dy) < 150` is
stated as `dx*dx + dy*dy < 150*150`, which is equivalent for non-negative
quantities. What is drawn on the canvas is represented by the list of joined
pairs `Line(i, j)` that a tick returns; what the form handlers show is
represented by the result of each check.

Details of the code that the model keeps:

- Spawn velocities are `(Math.random() - 0.5) * 4`, so each component lies in
  the half-open interval `[-2, 2)`, not `[-2, 2]`; `SpawnVelocity` proves it.
- The lines joined in a tick are the pairs `i < j` the nested loops visit; the
  distance test uses the positions before the particles are advanced.
- The size error reads "less than 5MB", but the check is `size > 5 * 1024 *
  1024`, so a file of exactly 5 MiB is accepted.

## Model

| member | source | states |
|---|---|---|
| JsText.IsWhitespace | script.js:139 | the class `\s`, which is also what `trim()` removes: the ECMAScript whitespace and line-terminator characters (tab to carriage return, space, no-break space, U+1680, U+2000 to U+200A, the line and paragraph separators, U+202F, U+205F, U+3000 and the byte-order mark) |
| JsText.TrimStart | script.js:222 | the leading-whitespace removal of `trim()`: the result is a suffix of the input not starting with whitespace, and everything dropped is whitespace |
| JsText.TrimEnd | script.js:222 | the trailing-whitespace removal of `trim()`: the result is a prefix not ending with whitespace, and everything dropped is whitespace |
| JsText.Trim | script.js:222 | `value.trim()`: leading whitespace removed, then trailing whitespace |
| JsText.IsBlank | script.js:222 | `!value.trim()`: the trimmed value is the empty string |
| JsText.TrimIsInnerSlice | script.js:222 | `value.trim()` is a slice `s[a..b]` of the value, returned with its bounds: only whitespace lies outside it and it neither starts nor ends with whitespace |
| JsText.BlankIffAllWhitespace | script.js:222 | `!value.trim()` holds exactly when every character of the value is whitespace |
| FormValidation.ValidateEmail | script.js:138-141 | `validateEmail`: the string splits into a non-empty run of non-whitespace, non-`@` characters, an `@`, another such run, a `.`, and a third such run |
| FormValidation.ValidateEmailIff | script.js:138-141 | the e-mail pattern accepts a string iff it has no whitespace, exactly one `@`, a non-empty part before it, and after it a `.` that is neither the first nor the last character |
| FormValidation.ValidEmailShape | script.js:138-141 | a string the e-mail pattern accepts has no whitespace, exactly one `@` with something before it, and an inner `.` after it |
| FormValidation.ShapedEmailValid | script.js:138-141 | a string of that shape is accepted by the e-mail pattern |
| FormValidation.ValidEmailNotBlank | script.js:138-141 | a string the e-mail pattern accepts is never blank after trimming |
| FormValidation.ValidatePhone | script.js:143-146 | `validatePhone`: the empty value passes because the field is optional; any other value passes iff every character is a digit, whitespace, `-`, `+`, `(` or `)` |
| FormValidation.ValidatePhoneAppend | script.js:143-146 | the pattern puts no bound on length and checks each character on its own, so two acceptable phone values joined together are acceptable |
| FormValidation.BlankPhoneValid | script.js:143-146 | a value that trims to nothing is an acceptable phone number |
| FormValidation.ValidateField | script.js:221-239 | `validateField`: a required blank field gets the required message, else an e-mail field failing the pattern gets the e-mail message, else a tel field failing the pattern gets the phone message, else the field is valid |
| FormValidation.ValidateFieldOrder | script.js:221-239 | the required check comes first, then the e-mail check, then the phone check; each message is given exactly when its check fails and all earlier ones pass, and the field is valid otherwise |
| FormValidation.EmailFieldValidIff | script.js:221-239 | an e-mail field is valid exactly when its value matches the e-mail pattern, whether it is required or not |
| FormValidation.TelFieldValidIff | script.js:221-239 | a tel field is valid exactly when it is not a required field of only whitespace and all its characters are phone characters |
| FormValidation.OtherFieldValidIff | script.js:221-239 | a field of any other type is valid exactly when it is optional or holds a non-whitespace character |
| FormValidation.OptionalBlankFieldValid | script.js:221-239 | a blank field that is not required passes unless its type is `email` |
| FormValidation.ValidateContactForm | script.js:244-250 | every present field is validated and gets its own outcome, also after an earlier one failed; absent inputs are skipped; the form is valid iff no input shows an error, that is iff every present field is valid |
| FormValidation.CheckCvUpload | script.js:343-360 | the CV submit checks in order: no file selected, the first file larger than 5 MiB, its MIME type not PDF, DOC or DOCX; otherwise the first file is accepted |
| FormValidation.CheckCvUploadIff | script.js:343-360 | the upload proceeds iff a file is selected, the first file is at most 5 MiB and its type is one of the three allowed MIME types; the no-file error precedes the size error, which precedes the type error |
| FormValidation.CvSizeBoundary | script.js:349-354 | a PDF of exactly 5 MiB is accepted and a file one byte larger is refused for its size whatever its type |
| HeroCursor.Spawn | script.js:50-58 | one pushed particle: at the mouse position, each velocity component `(r - 0.5) * 4` for a draw `r`, life and `maxLife` 1 |
| HeroCursor.SpawnVelocity | script.js:54-55 | a velocity component made from a `Math.random()` draw lies in `[-2, 2)` |
| HeroCursor.SpawnIsLive | script.js:50-58 | a new particle sits at the mouse position with life 1 and satisfies the collection invariant |
| HeroCursor.Advance | script.js:102-104 | the filter callback moves a particle by its velocity and lowers its life by 0.02 |
| HeroCursor.CloseSymmetric | script.js:82-86 | the distance and the "closer than 150" test do not depend on the order of the two particles |
| HeroCursor.Links | script.js:80-97 | the lines of a tick in drawing order: row by row for `i`, then by `j > i`, each pair closer than 150 |
| HeroCursor.LinksSpec | script.js:80-97 | a tick joins exactly the pairs `i < j` whose pre-advance distance is below 150; no particle is paired with itself and no pair is drawn twice or in both orders |
| HeroCursor.FindLinks | script.js:78-97 | the nested loops produce exactly the specified lines, in drawing order |
| HeroCursor.Survivors | script.js:101-118 | after the filter there are no more particles than before and every survivor has positive life |
| HeroCursor.SurvivorsSpec | script.js:101-118 | the filter keeps exactly the particles whose advanced life is positive, each advanced by its velocity and with life lowered by 0.02, in their old relative order |
| HeroCursor.SurvivorsLive | script.js:101-118 | a tick preserves the collection invariant: life in (0, 1], `maxLife` 1, velocities in `[-2, 2)` |
| HeroCursor.AdvanceAll | script.js:101-118 | the filter loop yields exactly the specified survivors |
| HeroCursor.LoneParticleLifetime | script.js:101-118 | a lone particle with life left survives `n` ticks exactly when its life minus `n` steps of 0.02 is positive, and then has exactly that life |
| HeroCursor.SpawnedParticleLifetime | script.js:101-118 | a particle born with life 1 is still present after 49 ticks and gone after the 50th |
| HeroCursor.HeroCursorEffect.constructor | script.js:8-11 | the effect starts with no particles, the mouse at (0, 0) and not hovered |
| HeroCursor.HeroCursorEffect.MouseEnter | script.js:32-34 | entering the hero section sets the hover flag, keeps the particle invariant and changes nothing else |
| HeroCursor.HeroCursorEffect.MouseLeave | script.js:36-38 | leaving the hero section clears the hover flag, keeps the particle invariant and changes nothing else |
| HeroCursor.HeroCursorEffect.MouseMove | script.js:40-59 | while hovered, a move records `(clientX, clientY - rect.top)` and appends exactly two particles there with life 1, leaving existing ones unchanged; otherwise nothing changes |
| HeroCursor.HeroCursorEffect.Animate | script.js:75-121 | a tick returns the lines over the old particles, replaces the collection by its survivors, never grows it, keeps the invariant and leaves the mouse state alone |
| Navbar.ClassesAfterScroll | script.js:388-395 | the navbar has the class `scrolled` iff the offset exceeds 100, and no other class changes |
| Navbar.LatestScrollDecides | script.js:388-395 | only the latest scroll event decides the class list; repeating an event is idempotent |
| Navbar.ScrolledIsMonotone | script.js:391-395 | scrolling further down never removes the class |
| Navbar.NavbarScroll.constructor | script.js:386 | the handler starts with `lastScroll` 0 and the navbar's class list as the page gives it |
| Navbar.NavbarScroll.OnScroll | script.js:388-398 | the scroll listener updates the class list as specified and records the offset in `lastScroll` |

## Left out

- DOM helpers `showError`, `clearError`, `showSuccess` and `setLoading`: element creation and attribute edits with no logic; their effect is represented by the result each check returns.
- Canvas drawing: `drawLine`, `clearRect`, the particle circles, colours, glow, radius `3 * life` and line opacity `(1 - distance / 150) * 0.4`, which needs a square root and floating point.
- `requestAnimationFrame` rescheduling: one call of `Animate` is one tick.
- The simulated submissions (`setTimeout`, `async`), `FormData`, `contactForm.reset()`, focusing the first error and the success-message timer: event-loop plumbing without logic.
- `Math.random`: the four draws of a mouse move are a parameter, each in `[0, 1)`.
- Floating-point rounding of `life -= 0.02` and of the coordinates: arithmetic is exact, so a particle born with life 1 disappears on exactly the 50th tick.
- `setupCanvas`, the resize listener and `canvasTop` (computed but never read): they read layout from the browser.
- The constructor's early return when the canvas element is missing: the object is then inert and has no state to model; the model starts from a present canvas.
- The TypeError thrown when `#cv-upload` is missing from the CV form (the submit handler reads `fileInput.files.length` without a null check) or when `.navbar` is missing (the scroll listener calls `navbar.classList` without one, before `lastScroll` is set): `CheckCvUpload` and `NavbarScroll.OnScroll` start from present elements.
- The `input`/`blur` listeners that clear an error or re-run `validateField`: they call the modelled function.
- `updateFileName` and its `toFixed(2)` size display, the drag-and-drop wiring, the `IntersectionObserver` fade-in, `scrollToSection`/anchor clicks and the mobile overlay toggle: DOM glue.
- Strings are sequences of Unicode scalar values, whereas the patterns (which have no `u` flag) run on UTF-16 code units. On well-formed UTF-16 both views accept the same strings: an astral character is two code units of the negated class `[^\s@]` in JavaScript and one `EmailChar` here, and a `+` run is non-empty either way; `\s`, `\d` and the phone class hold no surrogate, so an astral character fails the phone pattern in both. A value holding a lone surrogate, which `validateEmail` can accept (`"a\uD800@b.c"`), has no counterpart as a Dafny `string` and is not represented.
- Particle records: each particle record is referenced only from the `particles` array, so mutating it inside the `filter` callback and then compacting is modelled as building new values; aliasing of particle objects is not represented.
