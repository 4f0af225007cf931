# Web enumeration tool: decision logic in Dafny

This project models the decision logic of the CW2 web enumeration tool. The
tool is a reconnaissance program with two front ends.

- `enumeration.py` is the command-line tool. It keeps a user registry in
  `users.json` with bcrypt hashes and runs a login/register menu that issues a
  JWT. It then probes a target with `SubdomainEnumerator` (HTTPS GETs, a finding
  is a status below 400) and `PortScanner` (`connect_ex` equal to 0). A
  commented-out alternate version of the file adds a `DirectoryEnumerator`
  and a recursive link-following `WebCrawler`.
- `enumeration_gui.py` is the tkinter tool. It keeps the users in a MySQL
  table and the current token in `token.json`. Its scan window admits one
  scan per ten seconds, rejects a blank target and logs simulated findings.

Everything outside the program is a parameter:

- the network: `get` and `connect` functions;
- bcrypt and PyJWT: `Crypto.Hasher` and `Crypto.TokenCodec`, with the laws
  the program relies on stated as `HasherSound` and `CodecSound`;
- urljoin: the crawler's `join`;
- the clock: an integer `now`;
- the bcrypt salt: a string `salt`;
- the JSON and database files: fields of classes.

Modules:

| file | module | models |
|---|---|---|
| `wrappers.dfy` | `Wrappers` | `Option` |
| `text.dfy` | `Text` | Python's `str.strip()` |
| `crypto.dfy` | `Crypto` | bcrypt and PyJWT as abstract operations |
| `auth.dfy` | `Auth` | the command-line registry, tokens and menu loop |
| `probes.dfy` | `Probes` | the subdomain, directory and port probes and the command-line scan |
| `crawler.dfy` | `Crawler` | the commented-out `WebCrawler` and its `href` extraction |
| `gui.dfy` | `Gui` | the token slot, the user table, the login window and the rate-limited scan window |

Some behaviours of the code that the model keeps, because they are easy to
miss:

- The GUI's `run_enumeration` never consults the token it was given
  (enumeration_gui.py:160-162, 187-211). `Gui.ScanWindow` keeps the token,
  but `RunEnumeration` does not read it.
- An exception from `connect_ex`, such as an unresolvable host, is not caught
  (enumeration.py:133-136). `Probes.PortScan` therefore ends with
  `Aborted(port)`, and `Probes.CliScan` with `Crashed`.
- The directory prober builds `http://{target}/{directory}`, not HTTPS
  (enumeration.py:348). `Probes.DirectoryUrl` does the same.
- The crawler adds a URL to its visited set only after `requests.get`
  returns, whatever the status (enumeration.py:331-332).
- The rate-limit slot is taken before the target is checked
  (enumeration_gui.py:192-197). A rejected blank target therefore still
  blocks the next ten seconds (`Gui.BlankTargetTakesSlot`).

## Model

| member | source | states |
|---|---|---|
| Text.Strip | enumeration.py:177 | `str.strip()` with no argument, as removing leading then trailing whitespace; its properties are the four lemmas below |
| Text.TrimStartSuffix | enumeration_gui.py:194 | removing leading whitespace keeps a suffix; the dropped part is all whitespace and the rest does not start with whitespace |
| Text.TrimEndPrefix | enumeration_gui.py:194 | removing trailing whitespace keeps a prefix; the dropped part is all whitespace and the rest does not end with whitespace |
| Text.StripSlice | enumeration.py:177 | `strip()` gives a slice of the input with whitespace-only ends, and the slice neither starts nor ends with whitespace |
| Text.StripEmptyIffAllSpace | enumeration.py:177-181 | a stripped text is empty exactly when every character is whitespace |
| Text.StripIdempotent | enumeration.py:70-74 | stripping twice is the same as stripping once |
| Crypto.Decode | enumeration.py:50-58 | a token verifies iff its signature checks and `now < exp`; a bad signature is `InvalidToken`, a checked one with `exp <= now` is `ExpiredSignature` |
| Crypto.DecodeSigned | enumeration.py:46-58 | under the codec law, a signed payload decodes to itself until its expiry and is reported expired from then on |
| Auth.GenerateToken | enumeration.py:46-48 | the token decodes to `{user: username, exp: now + 3600}` and is never empty |
| Auth.VerifyToken | enumeration.py:50-58 | the user of a correctly signed token whose expiry is after `now`, and `None` for an expired or invalid token |
| Auth.TokenRoundTrip | enumeration.py:46-58 | a token issued at `issued` names its user exactly while `now < issued + 3600` |
| Auth.Login | enumeration.py:76-80 | a token is issued iff the user exists and the password checks against the stored hash, and it verifies to that user |
| Auth.Register | enumeration.py:83-88 | an existing username is refused; otherwise the keys grow by exactly the username, which maps to the hash, and every other entry is kept |
| Auth.RegisterThenLogin | enumeration.py:76-88 | under the bcrypt law, a newly registered user can log in with the same password |
| Auth.Step | enumeration.py:70-97 | one menu pass keeps every registered user; a registration continues with the same registry when the stripped username is taken and otherwise adds exactly `username -> hash(password)`; a login stops the loop iff the stripped credentials are valid, with the token issued to that stripped username at that time; Exit always stops it with `Exited`, and nothing else does so |
| Auth.AuthSession | enumeration.py:61-98 | the outcome and the registry of the menu loop for a sequence of answers, one `Step` per answer until one stops it |
| Auth.AuthenticateUser | enumeration.py:61-98 | the menu loop ends with the outcome and the registry that `AuthSession` gives for the answers typed |
| Auth.AuthSessionKeepsUsers | enumeration.py:61-98 | over a whole session, no registered user is removed or has its hash changed |
| Auth.AuthSessionAppend | enumeration.py:61-98 | answering `a` then `b` is answering `b` from the registry `a` left, unless `a` already ended the loop |
| Auth.LoginEndsSession | enumeration.py:65-78 | when no earlier answer ended the loop, a login with valid stripped credentials ends the session logged in, with the token issued to that user at that time |
| Auth.RegisterContinuesSession | enumeration.py:82-90 | when no earlier answer ended the loop, a registration goes on with the registry plus `username -> hash(password)` for the stripped username, or with the same registry when that name is taken |
| Auth.AuthSessionTokenNamesUser | enumeration.py:61-98 | a session ending in a login holds a correctly signed token naming a user of the final registry |
| Probes.KeepReachable | enumeration.py:115-123 | the findings are no more than the candidates and every finding answered with a status below 400 |
| Probes.KeepReachableMembers | enumeration.py:115-123 | a URL is found iff it is a candidate and its request answers with a status below 400 |
| Probes.KeepReachableOrdered | enumeration.py:115-123 | the findings are a subsequence of the candidates, in their order |
| Probes.KeepReachableAppend | enumeration.py:115-123 | probing a concatenation of candidate lists concatenates the findings |
| Probes.FailedCandidateDropped | enumeration.py:117-122 | a candidate whose request raises or answers 400 or more changes nothing; the later candidates are still probed |
| Probes.SubdomainUrls | enumeration.py:116 | one candidate `https://{prefix}.{target}` per prefix, in prefix order |
| Probes.SubdomainEnumerate | enumeration.py:113-123 | the loop returns the reachable candidate URLs in prefix order, never more than the prefixes |
| Probes.SubdomainExample | enumeration.py:113-123 | of `www` and `test` when only `www` answers 200, exactly `https://www.example.com` is found |
| Probes.DirectoryUrls | enumeration.py:348 | one candidate `http://{target}/{word}` per word, in wordlist order |
| Probes.DirectoryEnumerate | enumeration.py:345-355 | the loop returns the reachable candidate URLs in wordlist order, never more than the words |
| Probes.OpenPorts | enumeration.py:130-137 | a completed scan lists no more ports than it was given; an aborted scan names a listed port whose attempt raised |
| Probes.PortScan | enumeration.py:130-137 | the loop gives exactly the outcome `OpenPorts` describes |
| Probes.OpenPortsMembers | enumeration.py:130-137 | when no attempt raises, a port is reported iff it is listed and `connect_ex` gives 0 |
| Probes.OpenPortsOrdered | enumeration.py:131-137 | a completed scan reports a subsequence of the port list: list order, and no port more often than it is listed |
| Probes.OpenPortsAppend | enumeration.py:131-137 | scanning `a + b`, when nothing in `a` raises, gives the open ports of `a` in front of the outcome for `b` |
| Probes.OpenPortsAbortsAtFirstRaise | enumeration.py:132-135 | the scan stops at the first port whose attempt raises |
| Probes.PortExample | enumeration.py:130-137 | of ports 80 and 81 when 80 accepts and 81 refuses, exactly port 80 is open |
| Probes.CliScan | enumeration.py:140-181 | a blank target is refused; otherwise the subdomain findings and open ports over the fixed lists are saved, or the scan crashes exactly when a port attempt raises |
| Crawler.LinkRun | enumeration.py:333 | the run of characters other than quote, space and `>` from a position stays inside the text and stops at its end or at a character the class rejects |
| Crawler.LinkRunChars | enumeration.py:333 | every character of that run is accepted by the class, so the run is the longest one |
| Crawler.GroupStart | enumeration.py:333 | the pattern matches at a position iff `href=` is there followed by a link character, or by a single or double quote and then a link character; the group starts right after `href=` or, when the quote is taken, right after the quote |
| Crawler.Hrefs | enumeration.py:333 | `re.findall` of the `href` pattern over a page, trying each position from the left and going on where a match ended; every link is a non-empty run of link characters |
| Crawler.HrefsOne | enumeration.py:333 | `href=` with no quote, a single or a double quote, followed by a run of link characters, yields exactly that run, whatever `=` or `href=` it contains |
| Crawler.HrefsClosed | enumeration.py:333 | `href=link>` yields exactly `link` |
| Crawler.HrefsAppend | enumeration.py:333 | on a page split after a `>` or a space, the links are those of the first part followed by those of the second, so every match is returned and none is lost or merged |
| Crawler.HrefsTags | enumeration.py:333 | a page of tags `href=link>` yields every one of its links, in page order, and nothing else |
| Crawler.HrefsTwoLinks | enumeration.py:333 | the page `href=a>href=b` yields exactly the links `a` and `b` |
| Crawler.HrefsExample | enumeration.py:333 | the page `<a href='/b'>` yields exactly the link `/b` |
| Crawler.WebCrawler.constructor | enumeration.py:319-321 | a new crawler has an empty visited set and has fetched nothing |
| Crawler.WebCrawler.Crawl | enumeration.py:327-337 | a visited URL is not fetched again; `visited` grows only by answered fetches; the URL ends up visited iff it was before or it answered; every link of every newly visited page is handled |
| Crawler.WebCrawler.Enumerate | enumeration.py:323-325 | returns the visited set, which holds the seed iff it answered and only answered URLs |
| Gui.TokenStore.GetSavedToken | enumeration_gui.py:52-58 | the saved token, or `None` when `token.json` is missing, is not valid JSON or has no token |
| Gui.TokenStore.GenerateToken | enumeration_gui.py:41-49 | the slot then holds the new token, which verifies to the user until `now + 3600` |
| Gui.TokenStore.VerifyToken | enumeration_gui.py:61-71 | no user without a saved non-empty token; otherwise the token's user if it is signed and unexpired |
| Gui.UserTable.RegisterUser | enumeration_gui.py:89-106 | an existing username inserts nothing; otherwise exactly one row `(username, hash)` is added |
| Gui.LoginWindow.Login | enumeration_gui.py:130-141 | a token is saved and returned iff the user exists and the password checks; a failed login leaves the slot alone |
| Gui.LoginWindow.Register | enumeration_gui.py:144-152 | an existing username is refused before the insert; otherwise the table gains exactly the new user |
| Gui.ScanDecision | enumeration_gui.py:187-197 | the outcome of a press: the rate limit first, then the stripped target; `ScanDecisionCases` states it in terms of the inputs |
| Gui.ScanDecisionCases | enumeration_gui.py:187-197 | a press less than 10 seconds after the last scan is rate limited; a later one is a missing target iff the field is all whitespace, and a scan otherwise |
| Gui.RateLimitBoundary | enumeration_gui.py:189 | a press exactly 10 seconds later passes, one 5 seconds later is refused |
| Gui.ScanWindow.constructor | enumeration_gui.py:158 | the window starts with `last_scan_time` 0 and an empty output area |
| Gui.ScanWindow.RunEnumeration | enumeration_gui.py:187-211 | a refused press changes nothing; an admitted one sets `last_scan_time` to `now`; only a non-blank target logs the five fixed findings for the stripped target |
| Gui.ScansAfter | enumeration_gui.py:189-192 | every scan runs at least 10 seconds after the last admitted press before it |
| Gui.ScansSpaced | enumeration_gui.py:189-192 | any two scans of a run of presses are at least 10 seconds apart |
| Gui.BlankTargetTakesSlot | enumeration_gui.py:189-197 | an admitted press with a blank target still blocks a real target for the next 10 seconds |

## Left out

- HTTP requests and TCP connections are oracles (`get`, `connect`). Timeouts, DNS and the meaning of a status code beyond `< 400` are not modelled.
- bcrypt and PyJWT are abstract. `HasherSound` and `CodecSound` state only the laws the program relies on. A stored hash that bcrypt rejects as malformed (a `ValueError`) is not modelled.
- A JWT payload without `user` or `exp` is not modelled: `Claims` always holds both.
- Gui.TokenStore.GetSavedToken: other failures of reading `token.json` escape the function in the code (a `PermissionError`, a `UnicodeDecodeError`, or a JSON value that is not an object, whose `get` raises `AttributeError`). The model has no such case. A `token` entry that is not a string is not modelled either.
- `time.time()` is a float; the model uses integer seconds.
- `users.json`, `token.json`, `web_enumeration_results.json` and the MySQL `users` table become in-memory values. File I/O errors are left out, except `token.json` being missing or not valid JSON. MySQL's collation, the `VARCHAR(50)` limit and the commit are not modelled.
- `database.py` and `luncher.py` are I/O glue and are not part of this model.
- The tkinter layout, `show_manual`, message boxes and the text of log lines are left out. A log line is a `LogEntry` value.
- `input()`, `print`, `exit()` and parsing of the menu choice string are left out. The menu answers are a sequence of `MenuInput` values. `AuthSession`'s `InputExhausted` stands for running out of answers.
- `main`'s token re-check and its outer menu loop are left out. The scan choice itself is `Probes.CliScan`.
- `threading` and `Queue` are imported but unused. There is no concurrency to model.
- The commented-out alternate `authenticate_user` and run_enumeration are left out. So are the alternate `SubdomainEnumerator` (which probes `http://`) and the commented-out GUI token functions.
- Crawler.WebCrawler.Crawl: the crawled site is assumed finite (`site`), so the recursion terminates. The code has no depth or page bound (enumeration.py:327-337), and it recurses once per link level (enumeration.py:335), with the frames of `requests.get` on top. It therefore raises `RecursionError` on a site with unboundedly many linked pages, and also on a finite site whose chain of links is longer than Python's recursion limit allows (about a thousand pages). The `except requests.exceptions.RequestException` at enumeration.py:336 does not catch that error, so the crawl crashes. The model has no recursion limit: it returns a visited set in both cases.
- Crawler.WebCrawler.Crawl: its contract does not state that only URLs reachable from `url` by following links are added to `visited`. It allows any answered URL, while the code reaches new URLs only through the links of fetched pages (enumeration.py:333-335).
- Crawler.WebCrawler.Crawl: a fetch gives the same answer each time, and `urljoin` is a function (`join`).
- Crawler.WebCrawler.Enumerate: this states that pages reachable by following links are handled. It does not state that only such pages are visited.
- Probes.KeepReachable: the oracle is a function of the URL alone, so two requests for the same URL give the same answer.
