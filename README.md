# Astro Empires client core, modelled in Dafny

The Astro Empires browser library keeps a logged-in session with the game
server and turns the pages it fetches into events. This project models
three of its parts and proves properties about them.

- **The request object `AstroEmpires.AE`** announces each request on topic
  `ajax` and then issues it. It classifies each finished response:
  - a status other than 200 is logged;
  - a 200 response that is the login page triggers a login and a fresh GET
    of the same URL;
  - any other response goes to `processData`.

  `processData` reads the page name and view out of the URL and publishes
  the response under `url_<page>[_<view>]`. When a skin is set, it also
  publishes it under `skin_<skin>_<page>[_<view>]`.
- **The message store `AstroEmpires.Msg`** is a dictionary of message
  records with a cursor. The cursor can move to:
  - the earliest record (`getFirst`);
  - the latest record (`getLast`);
  - the record at or after the cursor's time (`getNext`);
  - the record at or before the cursor's time (`getPrev`).
- **The player store `AstroEmpires.Player`** is a dictionary of player
  records with a cursor.

Both builds of the request object are modelled. `ae.js` is `Build.Current`.
The older single-file `astro-empires-1.0.0.js` is `Build.Release100`. The
two builds differ in two ways in the modelled code:
- the older build fetches three pages in `getData()` rather than four;
- for a URL it cannot read, the older build calls an undeclared
  `exception()`, so what escapes is a ReferenceError, not the string
  `ae.js` throws.

The message store in `astro-empires-1.0.0.js` is the same code as
`messages.js`, so one model covers both.

Files:
- `js.dfy`, module `Js`: the JavaScript semantics the code leans on:
  - truthiness;
  - the string form of a value, which is what `obj[v]` uses as a key;
  - the order `for (k in obj)` visits keys in: array indexes ascending,
    then the other keys in insertion order;
  - loose `!=` against a key;
  - timestamps, where `NoTime` stands for undefined or NaN, against which
    every comparison is false.
- `messages.dfy`, module `Messages`: the `MsgStore` class.
  - Its scans are specified by the prefix functions `ExtremePos` and
    `NearestPos`.
  - It also holds the walk over records with equal times; see
    "## Findings".
- `player.dfy`, module `Players`: the `PlayerStore` class.
- `ae_patterns.dfy`, module `AePatterns`: the strings.
  - The two regular expressions are evaluated as `RegExp.prototype.exec`
    backtracks: start positions left to right, greedy and lazy
    quantifiers, `.` stopping at a line terminator, and the `i` flag.
  - Topic names, the batch of pages, and the three-way response
    classification.
- `login_form.dfy`, module `LoginForm`: the login parameters, and a
  form-encoding round trip for them.
- `ae.dfy`, module `Ae`: the `AE` class.
  - Publications, issued requests and console lines are ghost logs on the
    object.
  - `Complete` is the `onreadystatechange` handler for a finished request.

## Model

| member | source | states |
|---|---|---|
| Js.NatToStringRoundTrip | messages.js:97 | reading the decimal key of a numeric id back gives the id, so the key names the number |
| Js.NatToStringInjective | messages.js:97 | two numeric ids give the same property key only when they are equal |
| Js.NumericKeyIsArrayIndex | messages.js:120 | the key of a numeric id below 2^32-1 is an array index, so for-in visits it in numeric order |
| Js.InsertKey | messages.js:97-104 | assigning a key keeps an existing key in place; a new key is inserted at one position with every other key keeping its relative order, last for a non-index key and in numeric place for an array index; no duplicates arise and the for-in order is preserved |
| Js.TruthyIdKey | messages.js:96 | the `if (msgId)` guard lets a number through exactly when its key is not "0", a string exactly when it is not empty, and never undefined or null |
| Js.LooseEqualsOwnKey | messages.js:157 | for a number or string id, `index != this.id` is false exactly on the id's own key |
| Messages.ExtremePos | messages.js:115-124 | the getFirst/getLast loop picks nothing exactly on an empty store, and otherwise a position inside the store |
| Messages.ExtremePosIsExtreme | messages.js:121 | when the first visited record has a numeric time, the pick has the least (getFirst) or greatest (getLast) time of all timed records; among ties it is the first visited, because `<` is strict |
| Messages.ExtremePosStuckOnNoTime | messages.js:121 | a first visited record without a numeric time is never replaced: every comparison with it is false |
| Messages.NearestPos | messages.js:156-159 | getNext/getPrev pick nothing exactly when no record is at or past the cursor's time under another key; otherwise the pick qualifies, no qualifying record is nearer, and every qualifying record visited after it is strictly farther, so among equal times the last visited wins, as `<=` makes it |
| Messages.NextAlternatesOnTiedTimes | messages.js:157 | in the store {"1": 100, "2": 100, "3": 200}, getNext from record 1 lands on 2 and from 2 lands on 1, so record 3 is never reached |
| Messages.NearestByRank | messages.js:151-163 | corrected getNext/getPrev: records are ranked by (time, position in iteration order); the pick is strictly after the cursor in rank, every other record after the cursor is after the pick, and nothing is picked exactly when no record is after the cursor |
| Messages.RankedWalk | messages.js:151-163 | the positions that repeated corrected calls visit all lie inside the store |
| Messages.RankedWalkNeverRepeats | messages.js:151-163 | repeated corrected calls only move past the starting record, and never visit a record twice |
| Messages.CountAheadShrinks | messages.js:151-163 | after the cursor moves to a record ranked after it, strictly fewer records are ranked after the cursor |
| Messages.RankedWalkVisitsAll | messages.js:151-163 | with as many calls as there are records ranked after the cursor, the corrected walk visits every one of them |
| Messages.RankedWalkOnTiedTimes | messages.js:151-163 | on the tied store, the corrected walk from record 1 visits 2 and then 3 |
| Messages.RankAgreesWithoutTies | messages.js:157 | when no two records share a time and the cursor is a stored record, the as-written pick and the corrected pick are the same record: the correction only changes ties |
| Messages.MsgStore.constructor | messages.js:25-36 | a new store is empty, and every cursor field is null |
| Messages.MsgStore.Exists | messages.js:50-56 | true exactly when a record is stored under the id's key |
| Messages.MsgStore.Get | messages.js:63-74 | found exactly when the key is stored; the cursor becomes that record, and is unchanged when the key is not stored |
| Messages.MsgStore.Set | messages.js:93-108 | always publishes `msg_add_pre` first, while the store still holds the old records. A falsy id or an undefined message changes nothing and returns false. A null message throws a TypeError. Otherwise the record replaces any earlier one under the key whole, the key takes its for-in place, the cursor becomes the record, and the call returns true. Store invariants are kept |
| Messages.MsgStore.ScanExtreme | messages.js:115-125 | the loop's pick equals ExtremePos over the for-in order, and the cursor moves as `get(msg.id)` moves it |
| Messages.MsgStore.GetFirst | messages.js:115-126 | an empty store returns false with the cursor unchanged; in a store whose records carry their own keys it returns true and the cursor is the ExtremePos record |
| Messages.MsgStore.GetLast | messages.js:133-144 | the mirror image of GetFirst, with the greatest time |
| Messages.MsgStore.ScanNearest | messages.js:151-162 | with a falsy cursor time nothing moves; otherwise the pick equals NearestPos over the for-in order, and the cursor moves as `get(msg.id)` moves it |
| Messages.MsgStore.GetNext | messages.js:151-163 | as ScanNearest forward; a false return leaves the cursor unchanged |
| Messages.MsgStore.GetPrev | messages.js:170-182 | as ScanNearest backward; a false return leaves the cursor unchanged |
| Players.PlayerStore.constructor | player.js:22-34 | a new store is empty, with a null cursor |
| Players.PlayerStore.Exists | player.js:48-54 | true exactly when a player is stored under the id's key |
| Players.PlayerStore.Get | player.js:61-69 | found exactly when the key is stored; the cursor takes that player's id, name and guild, and is unchanged otherwise |
| Players.PlayerStore.Set | player.js:83-97 | always publishes `pre_set` first, while the store still holds the old players. An undefined argument or a falsy id returns false and changes nothing. A null argument throws a TypeError. Otherwise the player replaces any earlier one whole, and only then does `post_set` follow, with the store already holding the new player; the cursor becomes the player, and the call returns true |
| AePatterns.LineEnd | ae.js:150 | how far `.*` can run: no line terminator before the result, and one at the result unless it is the end |
| AePatterns.FirstDot | ae.js:150 | how far `[^\.]+` can run: no dot before the result, and a dot at the result unless it is the end |
| AePatterns.LastPageSlash | ae.js:150 | the greedy `.*\/` picks the last slash in range that opens a page name followed by `.aspx` |
| AePatterns.ExecSlash | ae.js:150 | exec finds a slash exactly when some slash opens a page name followed by `.aspx`, and the one it finds does |
| AePatterns.LastViewAt | ae.js:150 | the greedy `.+` picks the last `view=` followed by a letter |
| AePatterns.LetterRunEnd | ae.js:150 | `([a-z]+)` under the `i` flag runs to the first non-letter |
| AePatterns.MatchUrlFailsIff | ae.js:150 | for MatchUrl, the `exec` of the URL pattern: it fails exactly when no slash opens a page name followed by `.aspx`; a matched page name is not empty and holds no dot |
| AePatterns.PlainPageTopics | ae.js:150-158 | `…/<page>.aspx` is published under `url_<page>`, and also under `skin_<skin>_<page>` exactly when the skin is truthy |
| AePatterns.ViewPageTopics | ae.js:150-158 | `…/<page>.aspx?view=<letters>` is published under `url_<page>_<letters>`, plus the matching skin topic when the skin is truthy |
| AePatterns.ViewQuery | ae.js:150-152 | after `.aspx`, the query `?view=<letters>` yields exactly those letters as the view |
| AePatterns.PageNameMatched | ae.js:150-151 | in `prefix/<page>.aspx<rest>`, the page name is the part after the last slash |
| AePatterns.NoAspxNoMatch | ae.js:150-161 | a URL without `.aspx` in any case matches nothing, so processData throws |
| AePatterns.SkinTopicIffTruthy | ae.js:151-158 | of the topics TopicsFor gives a matched URL, the URL topic comes first and does not depend on the skin; the skin topic follows exactly when the skin is truthy, and has the same suffix |
| AePatterns.BatchPagesMatch | ae.js:191-197 | every page getData() fetches matches the URL pattern, with the expected page and view |
| AePatterns.BatchUrlTopics | ae.js:191-197 | the batch pages' URL topics are `url_account_display`, `url_account`, `url_board` and, in ae.js only, `url_messages` |
| AePatterns.LoginUrlMatch | ae.js:174 | the login URL matches the pattern with page `login` and no view |
| AePatterns.LoginUrlTopic | ae.js:174 | a login-page response that is not taken for the login form is published under `url_login` when no skin is set |
| AePatterns.LoginTitleDetected | ae.js:106 | HasLoginTitle, the `match` of the login-title pattern: any body containing `<title>Login</title>` is recognised as the login page |
| AePatterns.NoTitleNoLogin | ae.js:106 | a body without `<title>login`, in any case, is never recognised as the login page |
| AePatterns.TitleOnTwoLines | ae.js:106 | the lazy `.*?` does not cross a line end, so a title closed on the next line is not recognised |
| AePatterns.ClassifyCases | ae.js:104-122 | Classify, the three-way choice of the completion handler: a status other than 200 fails whatever the body; a 200 response with `<title>Login</title>` triggers a login; a 200 response without `<title>login` is delivered |
| LoginForm.FormRoundTrip | ae.js:168-173 | a server's decoding of an unencoded field list gives the list back with every name and value percent-decoded, when names hold no `=` and no field holds `&` |
| LoginForm.UnescapeFixedIff | ae.js:168-173 | percent-decoding leaves a text unchanged exactly when it holds no `+` and no `%` followed by two hex digits, which is what the unencoded concatenation would need |
| LoginForm.LoginParamsForm | ae.js:168-173 | LoginParams, the body login() concatenates, is the form encoding of email, pass, `navigator=Netscape`, hostname, `javascript=false` and `post_back=false`, in that order |
| LoginForm.LoginParamsRoundTrip | ae.js:168-173 | when no credential contains `&`, a server reads the login parameters as the six fields with each credential percent-decoded, and so finds the credentials as given exactly when none holds `+` or `%` and two hex digits |
| LoginForm.PlusInEmailReadsAsSpace | ae.js:168 | the email `a+b` reaches the server as `a b` |
| Ae.GetDataRequests | ae.js:182-199 | a non-empty URL gives exactly one GET of that URL; otherwise one GET per batch page, in order, with no parameters |
| Ae.Announcements | ae.js:98 | one `ajax` announcement per request, in order, carrying the request's url, verb and params |
| Ae.LoginRequestForm | ae.js:167-175 | LoginRequest is a POST to `http://<server>/login.aspx` whose body, when no credential holds `&`, a server reads back as the six login fields with each credential percent-decoded: exactly the credentials as given when none holds `+` or `%` and two hex digits |
| Ae.UrlErrorIdentifiesUrl | ae.js:160-161 | UrlError: in ae.js the thrown string names the URL, so two URLs give the same error exactly when they are equal; astro-empires-1.0.0.js:193 gives one ReferenceError for every URL, never equal to an ae.js error |
| Ae.Deliveries | ae.js:154-158 | one publication per topic, in order, each carrying the data and the url |
| Ae.BatchRequestTopics | astro-empires-1.0.0.js:214-227 | every request in the getData() batch is accepted by processData, and published first under the expected URL topic |
| Ae.AE.constructor | ae.js:47-58 | the credentials are stored; the skin and language start false; nothing has been published or requested |
| Ae.AE.Ajax | ae.js:97-133 | announces `{url, type, params}` on `ajax`, then issues the request |
| Ae.AE.Login | ae.js:167-175 | issues one POST of the login parameters to `http://<server>/login.aspx`, announced first |
| Ae.AE.GetData | ae.js:182-199 | issues and announces exactly GetDataRequests, in order (three pages in astro-empires-1.0.0.js, lines 214-227) |
| Ae.AE.ProcessData | ae.js:146-163 | a URL that does not match throws the build's error and publishes nothing: the string of ae.js, or the ReferenceError for `exception` of astro-empires-1.0.0.js (lines 192-193). Otherwise it publishes under TopicsFor's topics, in order |
| Ae.AE.Complete | ae.js:101-124 | a status other than 200 appends `Failed to open <url>` to the console and does nothing else. A login page issues the login and then the replay GetDataRequests for the URL. Any other page runs ProcessData, and its error escapes |
| Ae.AE.Reauthenticate | ae.js:106-111 | issues and announces the login POST, then the replay: a GET of the same URL, or the whole batch when the URL is empty |
| Ae.AE.SetUserLanguage | ae.js:209-212 | stores the language and returns true |
| Ae.AE.GetUserLanguage | ae.js:219-221 | returns the stored language |
| Ae.AE.SetUserSkin | ae.js:231-234 | stores the skin and returns true |
| Ae.AE.GetUserSkin | ae.js:241-243 | returns the stored skin |

## Left out

- The transport is not modelled. A request is an entry appended to
  `requests`, and a response arrives when `Complete` is called with its
  status and body. Asynchrony, the order responses arrive in, and the
  `Content-Type` header are not modelled.
- The global `thisAEO` is not modelled. Every request object assigns it,
  so the handler of an older request can act on a newer object. The model
  gives each handler its own object.
- `Ajax`, `GetData`: a request without params carries `undefined`. The
  source's `null === params` test then goes down the form-posting branch.
  The model records the params but not which `send` branch runs.
- `getData`'s argument is a string in the model. The empty string stands
  for a missing argument. Other falsy non-strings are not modelled.
- Subscribers run synchronously inside `publish` and can change the object
  (a skin parser sets the skin, say). Publication is an append to a log, so
  a subscriber running between the two publications of one response is not
  modelled. Subscription itself, and what `publish` returns, belong to the
  Observable helper, which is not part of this model.
- The constructor's registration of skin parsers is not modelled. Neither
  are its statistics object and the `msgs` and `players` stores it creates.
  The stores are modelled on their own.
- The blue-nova skin parser, the regex helper and `english.js` are not
  part of this model.
- Keys inherited from `Object.prototype` (`toString`, `__proto__`, …) are
  not modelled. The model treats a key as present only when it was stored.
- Times are integers or `NoTime` (undefined or NaN). Null, boolean and
  string times are not modelled. Neither are fractional numbers, NaN or
  infinite ids.
- `Js.LooseEqualsKey`: a key equals a number only in its canonical decimal
  spelling. Other spellings JavaScript accepts, such as `"01"` or `"1e0"`,
  are not modelled.
- A message or player argument is given by exactly the properties the store
  copies. Extra properties are not modelled.
- `LoginForm.LoginParamsRoundTrip`: covered only when the email, password
  and server hold no `&`, since a `&` splits the form into other fields.
  The source does not escape the credentials, so one holding `&`, `+` or
  `%` and two hex digits reaches the server changed. The server's decoder
  turns `%XX` into the character with that code; decoding escaped bytes
  as UTF-8 is not modelled.
- The model follows the code in four places where another design would
  also be reasonable:
  - `set` overwrites the whole record rather than merging fields;
  - `post_set` carries the argument and the store after the write, not the stored record;
  - re-login has no retry cap and no single-flight guard;
  - the replay after login is always a GET of the URL, whatever the
    original method and body were.

## Findings

| source | as written | input that shows it | evidently intended | confidence | as-written member | corrected member |
|---|---|---|---|---|---|---|
| messages.js:157 | `getNext` accepts every record whose time is `>=` the cursor's under another key, and keeps the last visited one with the least such time; `getPrev` (messages.js:176, astro-empires-1.0.0.js:411 and 430) is the mirror image. A record that ties with the cursor is accepted again and again | store `{"1": time 100, "2": time 100, "3": time 200}`, each record under its own id: `get(1)`, then `getNext()` lands on 2, the next `getNext()` lands on 1 again, and record 3 is never reached | repeated `getNext` visits each later record once, in (time, for-in position) order | medium, not executed | Messages.NextAlternatesOnTiedTimes | Messages.NearestByRank, Messages.RankedWalkVisitsAll |
