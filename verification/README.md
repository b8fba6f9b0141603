# Sentiment-comment console: user store, title layout and form decisions

A Dafny model of the core of `main.go`, a console application. Users
register and log in there, and the screens draw boxed titles and
breadcrumb trails. Three parts of that file are modelled and proved:

- **The user store** (module `UserStore`). The package-level array
  `users [NMAX]User` with `NMAX = 255`, the live count `nUser` and the id
  counter `idUser` become the class `Store`. It holds an `array<User>` of
  255 slots, and its `Valid()` invariant says:
  - `0 <= nUser <= 255`;
  - `idUser == nUser + 1`;
  - the live users `users[..nUser]` have pairwise distinct usernames;
  - their ids increase strictly with the index, are positive and are below
    `idUser`.

  `CreateUser` and `FindUserByUsername` are methods that scan the live
  prefix as the Go loops do. `Login` is one pass of the login screen's
  decision; `Register` is one pass of the registration screen's decision.
  Each is proved against functions on the sequence of live users:
  - `FirstIndexOf`: the first-match scan;
  - `Lookup`;
  - `Authenticate`: a user with this name exists and its stored password
    is the typed one;
  - `StoreInv`.

  Lemmas about those functions give the round trips: create then look up,
  and register then log in.
- **Title layout** (module `Layout`). `PrintTitle` returns the lines it
  would print. Its scanning loop is the method `SplitTitle`. That loop
  keeps Go's `start`, `currentPos` and `lastSpace`, including the rescan
  after a soft break. It is proved equal to `Wrap`, a recursive greedy
  definition. Lemmas about `Wrap` state three things:
  - Joining the lines back gives the title. One space is re-inserted at
    each soft break and nothing at a hard break.
  - Every line is non-empty and at most 38 bytes. A title of at most 38
    bytes is exactly one line.
  - Breaks are greedy: a soft break drops the last space in the next 38
    bytes, and a hard break happens only when there is no usable space.

  `Padding` and `CenteredLine` model `printCenteredText`. Every framed
  line is 42 characters, as long as `printBorder`'s line.
  `PrintBreadcrumbs` is a loop proved to build `"Main Menu > "` followed
  by the links joined with `" > "`.
- **Form decisions** (module `Forms`). These are the checks made after the
  input is read:
  - `LoginForm` and `RegisterForm`: the non-empty checks and the
    password/confirmation match;
  - `PrintMenu`'s range check: `SelectMenuOption` returns the new value
    of `answer`;
  - `ConfirmForm`'s 1/2/other choice.

Strings are byte sequences (`seq<char>` with `|s|` standing for Go's
`len`). Go's truncating integer division is written out in `GoDiv`.
Errors are datatypes in place of Go's Indonesian messages. `main.go` also
declares a comment array `comments` with the counters `nComment` and
`idComment` (main.go:37-45), but no function reads or writes them, so they
are not modelled.

## Model

| member | source | states |
|---|---|---|
| `Forms.LoginForm` | main.go:181-185 | accepted exactly when both username and password are non-empty; a refusal is the empty-field error |
| `Forms.RegisterForm` | main.go:222-230 | accepted exactly when all three fields are non-empty and the password equals its confirmation; the empty-field error takes priority over the mismatch error |
| `Forms.RegisterFormAcceptsLogin` | main.go:181-228 | credentials the registration form accepts are accepted by the login form |
| `Forms.SelectMenuOption` | main.go:420-426 | succeeds exactly when 1 <= input <= n and then sets answer to input; otherwise errs and leaves answer unchanged |
| `Forms.ConfirmChoice` | main.go:256-262 | 1 means yes, 2 means no, every other number is invalid (asks again) |
| `UserStore.FirstIndexOf` | main.go:279-284 | the index of the first live user with exactly this username, none exactly when no user has it |
| `UserStore.Lookup` | main.go:278-286 | NotFound exactly when no live user has the username; otherwise the first live user, in storage order, with that exact username |
| `UserStore.Authenticate` | main.go:96-102 | the login decision: the user a lookup by name returns has exactly the typed password; it holds only when some live user has that username and password, never for an unknown name |
| `UserStore.StoreInv` | main.go:29-35 | the invariant of the live users `users[:nUser]` and the counter `idUser`: usernames pairwise distinct, ids strictly increasing with the index, positive and below `idUser` |
| `UserStore.AppendKeepsInv` | main.go:310-316 | appending a user with a free username and the next id keeps names distinct, ids increasing, positive and below the new next id |
| `UserStore.LookupFindsEveryUser` | main.go:278-308 | under the store invariant, looking up any live user's name returns exactly that user, and its own password authenticates |
| `UserStore.LookupAfterAppend` | main.go:278-317 | after appending a user whose name was free, looking that name up returns the new user |
| `UserStore.LookupOtherAfterAppend` | main.go:278-317 | appending a user leaves the lookup of every other username unchanged |
| `UserStore.RegisterThenLogin` | main.go:94-138 | after a registration that the form and CreateUser accept, login succeeds with that password and with no other; other users' logins are unaffected |
| `UserStore.Store.Valid` | main.go:29-35 | the state of `users`, `nUser` and `idUser`: an array of 255 slots, 0 <= nUser <= 255, idUser == nUser + 1, and StoreInv on the live prefix |
| `UserStore.Store.constructor` | main.go:29-35 | initial state: 255 zero-valued slots, no live users, next id 1 |
| `UserStore.Store.CreateUser` | main.go:299-318 | full store gives CapacityExceeded, an exact duplicate name gives DuplicateUsername, and either refusal changes nothing; otherwise slot old nUser receives {old idUser, username, password}, both counters rise by one, other slots are untouched, the invariant holds and a lookup of the name returns the new user |
| `UserStore.Store.FindUserByUsername` | main.go:278-286 | returns the first live user with exactly the username, or NotFound when there is none; reads the store without changing it |
| `UserStore.Store.Login` | main.go:94-102 | succeeds exactly when the login form accepts and Authenticate holds, returning that stored user; otherwise distinguishes form error (always the empty-field error), unknown username and wrong password |
| `UserStore.Store.Register` | main.go:130-138 | succeeds exactly when the registration form accepts, the store is not full and the name is free; then the user is appended with the next id and can authenticate; a refusal changes nothing and says why: the form's own error exactly when the form refuses, CapacityExceeded exactly when the form accepts and the store is full, DuplicateUsername exactly when the form accepts, there is room and the name is taken |
| `Layout.Spaces` | main.go:393-399 | the blanks a padding loop prints: n of them, none when n <= 0 |
| `Layout.GoDiv` | main.go:385-386 | Go's `/` on int: the quotient truncated toward zero, non-negative for a non-negative dividend and at most zero for a negative one |
| `Layout.Padding` | main.go:385-390 | for text that fits an even width: left padding + text length + right padding equals the width, and the right padding is the left one or one more |
| `Layout.CenteredLine` | main.go:382-401 | for text that fits an even width the line is width + 4 long, starts with "= ", ends with " =", holds the text right after the left padding, and both paddings are blanks |
| `Layout.FramedLineFits` | main.go:373-401 | a framed line of text of at most 38 bytes is 42 characters, the length of the border |
| `Layout.WrapFrom` | main.go:341-366 | the greedy wrapping of the title from a start position, stated recursively: a rest that fits is the last line, otherwise the next line ends at the last usable space of the next 38 bytes (dropped) or is cut after 38 bytes |
| `Layout.Wrap` | main.go:332-366 | the lines of a title: a title of at most 38 bytes is one line, a longer one is WrapFrom from 0; there is always at least one line and the first is a prefix of the title |
| `Layout.LastSpace` | main.go:356-358 | the position lastSpace tracks: in range, and a space when it lies inside the scanned part |
| `Layout.LastSpaceIsLast` | main.go:356-358 | no byte after the remembered space, up to the scan position, is a space |
| `Layout.WrapFromGreedy` | main.go:346-355 | a soft break drops the last space among the next 38 bytes; a hard break cuts exactly 38 bytes and happens only when none of them after the first is a space |
| `Layout.SoftBreakStep` | main.go:347-351 | a break at a usable space emits the next line of the greedy wrapping |
| `Layout.HardBreakStep` | main.go:352-354 | a break without a usable space emits the next 38 bytes as the next line of the greedy wrapping |
| `Layout.JoinSoftBreak` | main.go:347-351 | a line cut at a space, with that space put back, followed by the rest rebuilds the text |
| `Layout.JoinHardBreak` | main.go:352-354 | a line cut without dropping anything, followed by the rest, rebuilds the text |
| `Layout.JoinWrapFrom` | main.go:341-366 | joining the wrapped lines of the text from a position, with a space re-inserted at each soft break, gives the text from that position back |
| `Layout.WrapFromBounds` | main.go:345-366 | every wrapped line is non-empty and at most 38 bytes; soft-broken lines are shorter than 38 and hard-broken lines before the last are exactly 38 |
| `Layout.WrapRoundTrip` | main.go:332-366 | the lines of any title, joined back, give the title |
| `Layout.WrapBounds` | main.go:332-366 | a title of at most 38 bytes is exactly one line equal to the title; a longer one becomes non-empty lines of at most 38 bytes, soft-broken lines shorter than 38 and hard-broken lines before the last exactly 38 |
| `Layout.LastLineStep` | main.go:364-366 | once the rest fits in 38 bytes, the lines emitted so far plus the rest as one line (or nothing, when the rest is empty) are the whole wrapping |
| `Layout.SplitTitle` | main.go:328-366 | the scanning loop emits exactly the greedy wrapping of the title, and terminates |
| `Layout.Box` | main.go:333-368 | the printed box: a border, one centered framed line per wrapped line, and a border |
| `Layout.PrintTitle` | main.go:328-375 | a border, one centered framed line per wrapped line, and a border; every line is 42 characters |
| `Layout.Trail` | main.go:438-443 | the links joined by " > ", with no separator after the last one |
| `Layout.TrailConcat` | main.go:436-446 | two non-empty trails placed one after the other are joined by exactly one " > " |
| `Layout.TrailSnoc` | main.go:438-443 | one more pass of the loop extends the trail by the next link, after a " > " unless it is the first link |
| `Layout.TrailEndsWithLast` | main.go:439-440 | a trail ends with its last link, printed without a separator after it |
| `Layout.PrintBreadcrumbs` | main.go:436-446 | "Main Menu > " followed by the first n links joined by " > ", with nothing after the last link |

## Left out

- Terminal I/O. Every `fmt.Print`/`fmt.Println` becomes a returned string or a sequence of lines, and every `fmt.Scan` becomes a parameter. A failed read (a Go `Scan` error, such as non-numeric menu input) is therefore not modelled.
- `PrintMenu` printing its numbered items (`"%d. %s"`). This is output formatting only; the model keeps the range decision.
- `PrintBreadcrumbs`: the trailing newline that `fmt.Println` adds is not part of the returned line.
- The `main` menu loop, the retry loops of `LoginView`, `RegisterView` and `ConfirmForm`, and `AdminMenuView`. They are driven by terminal input or only print. The model keeps the decision each loop makes on one pass (`Store.Login`, `Store.Register`, `ConfirmChoice`).
- `UserStore.Store.Login`: `LoginView` copies the found user into its `user` pointer even when the password then turns out wrong. The model returns the user only on success, because nothing reads that pointer afterwards.
- The `comments` array with `nComment` and `idComment`. They are declared, but no function in `main.go` reads or writes them.
- The Indonesian error message texts. Errors are the datatypes `CreateError`, `LookupError`, `LoginError`, `RegisterError`, `FormError` and `MenuError`.
- `Layout.PrintBreadcrumbs`: requires n <= the number of links. Go's `links` is a fixed `[255]string`, and an n beyond 255 panics with an index out of range at main.go:440-442; the model does not model that panic.
- `Forms.SelectMenuOption`: accepts any n. Go's `PrintMenu` panics at main.go:411 for n > 255, before it reads any input; the model does not model that panic, and every call site passes n = 4.
- Go's 64-bit `int` wrap-around. Counters stay at or below 256, and string lengths are far below the limit.
- `Layout.Padding`: stated only for even widths and text that fits. For an odd width, or text longer than the width, Go's arithmetic does not fill the frame. No call site does that: the only width is 38, and `PrintTitle` never passes more than 38 bytes.
