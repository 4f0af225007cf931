/** The decision logic of the graphical tool `enumeration_gui.py`: the saved
    token slot (`token.json`), the MySQL `users` table, the login window and
    the scan window with its ten-second rate limit. */
module Gui {
  import opened Wrappers
  import opened Text
  import opened Crypto
  import Auth

  /** The state of `token.json`: missing, not valid JSON, or a JSON object
      whose `"token"` entry may be missing. */
  datatype TokenFile = NoFile | Unreadable | Json(token: Option<string>)

  /** The single saved-token slot. */
  class TokenStore {
    var file: TokenFile

    constructor(file: TokenFile)
      ensures this.file == file
    {
      this.file := file;
    }

    /** `get_saved_token()`: the saved token, or `None` when the file is
        missing, is not valid JSON or holds no token. */
    function GetSavedToken(): (token: Option<string>)
      reads this
      ensures token.Some? <==> file.Json? && file.token.Some?
      ensures token.Some? ==> file.token == token
    {
      match file
      case Json(t) => t
      case _ => None
    }

    /** `generate_token(username)`: a fresh token for the user, which
        overwrites the slot; it names the user for one hour. */
    method GenerateToken(codec: TokenCodec, username: string, now: int) returns (token: string)
      modifies this
      ensures token == Auth.GenerateToken(codec, username, now)
      ensures file == Json(Some(token))
      ensures CodecSound(codec) ==>
                forall at :: VerifyToken(codec, at) == if at < now + Auth.TokenExpiration then Some(username) else None
    {
      token := Auth.GenerateToken(codec, username, now);
      file := Json(Some(token));
    }

    /** `verify_token()` at time `now`: no user without a saved non-empty
        token; otherwise the user of a correctly signed, unexpired token. */
    function VerifyToken(codec: TokenCodec, now: int): (user: Option<string>)
      reads this
      ensures GetSavedToken().None? ==> user.None?
      ensures GetSavedToken().Some? && GetSavedToken().value != "" ==>
                user == Auth.VerifyToken(codec, GetSavedToken().value, now)
      ensures user.Some? ==> GetSavedToken().Some? && GetSavedToken().value != ""
    {
      var token := GetSavedToken();
      if token.None? || token.value == "" then None
      else Auth.VerifyToken(codec, token.value, now)
    }
  }

  /** The `users` table: `username` is unique, so it is a map to the hash. */
  class UserTable {
    var rows: Auth.Users

    constructor(rows: Auth.Users)
      ensures this.rows == rows
    {
      this.rows := rows;
    }

    /** `register_user(username, password)`: a `SELECT` finds an existing
        user and nothing is inserted; otherwise exactly one row
        `(username, hash(password))` is inserted. */
    method RegisterUser(h: Hasher, username: string, password: string, salt: string) returns (inserted: bool)
      modifies this
      ensures inserted <==> username !in old(rows)
      ensures !inserted ==> rows == old(rows)
      ensures inserted ==> rows == Auth.Register(h, old(rows), username, password, salt).users
      ensures inserted ==> |rows| == |old(rows)| + 1
    {
      if username in rows {
        return false;
      }
      var hashed := h.hash(password, salt);
      rows := rows[username := hashed];
      inserted := true;
    }
  }

  /** The login window, with the table and the token slot it uses. */
  class LoginWindow {
    const users: UserTable
    const tokens: TokenStore

    constructor(users: UserTable, tokens: TokenStore)
      ensures this.users == users && this.tokens == tokens
    {
      this.users := users;
      this.tokens := tokens;
    }

    /** `login()`: a token, saved in the slot and handed to the scan window,
        iff the user exists and the password verifies; otherwise nothing changes. */
    method Login(h: Hasher, codec: TokenCodec, username: string, password: string, now: int)
      returns (token: Option<string>)
      modifies tokens
      ensures token.Some? <==> Auth.CredentialsValid(h, users.rows, username, password)
      ensures token.Some? ==> token.value == Auth.GenerateToken(codec, username, now)
                              && tokens.file == Json(Some(token.value))
      ensures token.None? ==> tokens.file == old(tokens.file)
    {
      var rows := users.rows;
      if username in rows && h.check(password, rows[username]) {
        var t := tokens.GenerateToken(codec, username, now);
        token := Some(t);
      } else {
        token := None;
      }
    }

    /** `register()`: an existing username is refused before `register_user`
        is called, which checks it once more. */
    method Register(h: Hasher, username: string, password: string, salt: string) returns (inserted: bool)
      modifies users
      ensures inserted <==> username !in old(users.rows)
      ensures !inserted ==> users.rows == old(users.rows)
      ensures inserted ==> users.rows == Auth.Register(h, old(users.rows), username, password, salt).users
    {
      if username in users.rows {
        return false;
      }
      inserted := users.RegisterUser(h, username, password, salt);
    }
  }

  /** Seconds that must pass between two accepted scans. */
  const RateLimitSeconds: int := 10

  /** How `run_enumeration()` ends: the rate-limit error, the missing-target
      error, or the simulated results written to the output area. */
  datatype ScanOutcome = RateLimited | MissingTarget | Enumerated

  /** One line written to the output area. */
  datatype LogEntry =
    | Enumerating(target: string)
    | SubdomainsFound(subdomains: seq<string>)
    | OpenPortsFound(ports: seq<int>)
    | CrawledUrls(urls: seq<string>)
    | DirectoriesFound(directories: seq<string>)

  predicate Admits(lastScanTime: int, now: int)
  {
    now - lastScanTime >= RateLimitSeconds
  }

  /** The rate limit is checked first, then the stripped target. */
  function ScanDecision(lastScanTime: int, now: int, entry: string): ScanOutcome
  {
    if !Admits(lastScanTime, now) then RateLimited
    else if Strip(entry) == [] then MissingTarget
    else Enumerated
  }

  /** A press less than ten seconds after the last admitted one is refused; a
      later one reports a missing target exactly when the field is blank, and
      runs the scan otherwise. */
  lemma ScanDecisionCases(lastScanTime: int, now: int, entry: string)
    ensures ScanDecision(lastScanTime, now, entry) == RateLimited <==> now - lastScanTime < 10
    ensures ScanDecision(lastScanTime, now, entry) == MissingTarget <==> now - lastScanTime >= 10 && AllSpace(entry)
    ensures ScanDecision(lastScanTime, now, entry) == Enumerated <==> now - lastScanTime >= 10 && !AllSpace(entry)
  {
    StripEmptyIffAllSpace(entry);
  }

  /** A press exactly ten seconds after the last scan passes the limit; one
      five seconds after it is refused. */
  lemma RateLimitBoundary(entry: string)
    ensures ScanDecision(9990, 10000, entry) != RateLimited
    ensures ScanDecision(10000, 10005, entry) == RateLimited
  {
  }

  /** The slot is taken by every call that passes the rate limit, whatever the target. */
  function NextScanTime(lastScanTime: int, now: int): int
  {
    if Admits(lastScanTime, now) then now else lastScanTime
  }

  /** The simulated findings logged for a target. */
  function ScanLog(target: string): seq<LogEntry>
  {
    [ Enumerating(target),
      SubdomainsFound(["www", "test", "dev", "staging"]),
      OpenPortsFound([80, 443, 8080, 22]),
      CrawledUrls(["http://" + target + "/about", "http://" + target + "/contact"]),
      DirectoriesFound(["/admin", "/backup", "/config"]) ]
  }

  /** The scan window, opened with the token of a successful login. */
  class ScanWindow {
    const token: string
    var lastScanTime: int
    var output: seq<LogEntry>

    /** `last_scan_time` starts at 0, so the first scan is admitted. */
    constructor(token: string)
      ensures this.token == token && lastScanTime == 0 && output == []
    {
      this.token := token;
      lastScanTime := 0;
      output := [];
    }

    /** `run_enumeration()` at time `now` with the text of the target field. */
    method RunEnumeration(now: int, entry: string) returns (outcome: ScanOutcome)
      modifies this
      ensures outcome == ScanDecision(old(lastScanTime), now, entry)
      ensures lastScanTime == NextScanTime(old(lastScanTime), now)
      ensures outcome == RateLimited ==> lastScanTime == old(lastScanTime)
      ensures outcome != RateLimited ==> lastScanTime == now
      ensures output == old(output) + (if outcome == Enumerated then ScanLog(Strip(entry)) else [])
    {
      if now - lastScanTime < RateLimitSeconds {
        return RateLimited;
      }
      lastScanTime := now;
      var target := Strip(entry);
      if target == [] {
        return MissingTarget;
      }
      output := output + ScanLog(target);
      outcome := Enumerated;
    }
  }

  /** A press of "Run Enumeration" at a time, with the target field's text. */
  datatype ScanCall = ScanCall(now: int, entry: string)

  /** The outcomes of successive presses, starting from `lastScanTime`. */
  function Outcomes(lastScanTime: int, calls: seq<ScanCall>): seq<ScanOutcome>
    decreases |calls|
  {
    if calls == [] then []
    else
      [ScanDecision(lastScanTime, calls[0].now, calls[0].entry)]
        + Outcomes(NextScanTime(lastScanTime, calls[0].now), calls[1..])
  }

  /** The times at which successive presses actually ran a scan. */
  function ScanTimes(lastScanTime: int, calls: seq<ScanCall>): seq<int>
    decreases |calls|
  {
    if calls == [] then []
    else
      (if ScanDecision(lastScanTime, calls[0].now, calls[0].entry) == Enumerated then [calls[0].now] else [])
        + ScanTimes(NextScanTime(lastScanTime, calls[0].now), calls[1..])
  }

  /** Every scan runs at least ten seconds after the last admitted press before it. */
  lemma {:induction false} ScansAfter(lastScanTime: int, calls: seq<ScanCall>)
    ensures forall k :: 0 <= k < |ScanTimes(lastScanTime, calls)| ==>
              ScanTimes(lastScanTime, calls)[k] >= lastScanTime + 10
    decreases |calls|
  {
    if calls != [] {
      var next := NextScanTime(lastScanTime, calls[0].now);
      ScansAfter(next, calls[1..]);
    }
  }

  /** Every two times of `times` are at least ten seconds apart, in order. */
  ghost predicate Spaced(times: seq<int>)
  {
    forall i, j :: 0 <= i < j < |times| ==> times[j] >= times[i] + 10
  }

  lemma SpacedCons(t: int, rest: seq<int>)
    requires Spaced(rest)
    requires forall k :: 0 <= k < |rest| ==> rest[k] >= t + 10
    ensures Spaced([t] + rest)
  {
    var times := [t] + rest;
    forall i, j | 0 <= i < j < |times|
      ensures times[j] >= times[i] + 10
    {
      assert times[j] == rest[j - 1];
      if i > 0 {
        assert times[i] == rest[i - 1];
      }
    }
  }

  /** Scans run at least ten seconds apart, however the presses are timed. */
  lemma {:induction false} ScansSpaced(lastScanTime: int, calls: seq<ScanCall>)
    ensures Spaced(ScanTimes(lastScanTime, calls))
    decreases |calls|
  {
    if calls != [] {
      var c := calls[0];
      var next := NextScanTime(lastScanTime, c.now);
      ScansSpaced(next, calls[1..]);
      var rest := ScanTimes(next, calls[1..]);
      if ScanDecision(lastScanTime, c.now, c.entry) == Enumerated {
        ScansAfter(next, calls[1..]);
        SpacedCons(c.now, rest);
        assert ScanTimes(lastScanTime, calls) == [c.now] + rest;
      } else {
        assert ScanTimes(lastScanTime, calls) == rest;
      }
    }
  }

  /** A press with a blank target that passes the rate limit still takes the
      slot: a press with a real target less than ten seconds later is refused. */
  lemma BlankTargetTakesSlot(lastScanTime: int, t: int, blank: string, t2: int, target: string)
    requires t - lastScanTime >= 10 && AllSpace(blank)
    requires t <= t2 < t + 10
    ensures Outcomes(lastScanTime, [ScanCall(t, blank), ScanCall(t2, target)]) == [MissingTarget, RateLimited]
  {
    var calls := [ScanCall(t, blank), ScanCall(t2, target)];
    ScanDecisionCases(lastScanTime, t, blank);
    assert ScanDecision(lastScanTime, t, blank) == MissingTarget;
    assert ScanDecision(t, t2, target) == RateLimited;
    assert calls[1..] == [ScanCall(t2, target)];
    assert calls[1..][1..] == [];
    assert Outcomes(t, calls[1..]) == [RateLimited];
  }
}
