/** The probe strategies of `enumeration.py`: subdomain resolution, port
    scanning and directory probing, each a loop over a candidate list that
    keeps the candidates a network oracle accepts, and the command-line scan
    that runs the first two over fixed lists. */
module Probes {
  import opened Text

  /** What `requests.get(url, timeout=3)` gives: a response with a status
      code, or a `RequestException` (timeout, refused connection, DNS failure). */
  datatype Response = Status(code: int) | RequestFailed

  /** A candidate is kept when the request answered with a status below 400. */
  predicate Reachable(r: Response)
  {
    r.Status? && r.code < 400
  }

  /** The URLs of `urls` whose request is reachable, in their order. */
  function KeepReachable(urls: seq<string>, get: string -> Response): (found: seq<string>)
    ensures |found| <= |urls|
    ensures forall k :: 0 <= k < |found| ==> Reachable(get(found[k]))
  {
    if urls == [] then []
    else (if Reachable(get(urls[0])) then [urls[0]] else []) + KeepReachable(urls[1..], get)
  }

  /** One step of the probing loop. */
  lemma KeepReachableCons(url: string, rest: seq<string>, get: string -> Response)
    ensures KeepReachable([url] + rest, get)
         == (if Reachable(get(url)) then [url] else []) + KeepReachable(rest, get)
  {
    assert ([url] + rest)[1..] == rest;
  }

  /** `b` contains the elements of `a` in the same order, possibly with others between. */
  predicate IsSubsequence<T(==)>(a: seq<T>, b: seq<T>)
    decreases |b|
  {
    a == [] || (b != [] && ((a[0] == b[0] && IsSubsequence(a[1..], b[1..])) || IsSubsequence(a, b[1..])))
  }

  /** A URL is found iff it is a candidate whose request is reachable. */
  lemma {:induction false} KeepReachableMembers(urls: seq<string>, get: string -> Response, url: string)
    ensures url in KeepReachable(urls, get) <==> url in urls && Reachable(get(url))
  {
    if urls != [] {
      KeepReachableMembers(urls[1..], get, url);
      assert urls == [urls[0]] + urls[1..];
    }
  }

  /** The findings keep the order of the candidate list. */
  lemma {:induction false} KeepReachableOrdered(urls: seq<string>, get: string -> Response)
    ensures IsSubsequence(KeepReachable(urls, get), urls)
  {
    if urls != [] {
      KeepReachableOrdered(urls[1..], get);
      var rest := KeepReachable(urls[1..], get);
      if Reachable(get(urls[0])) {
        assert KeepReachable(urls, get) == [urls[0]] + rest;
        assert ([urls[0]] + rest)[1..] == rest;
      } else {
        assert KeepReachable(urls, get) == rest;
      }
    }
  }

  /** Probing splits over a concatenation of candidate lists. */
  lemma {:induction false} KeepReachableAppend(a: seq<string>, b: seq<string>, get: string -> Response)
    ensures KeepReachable(a + b, get) == KeepReachable(a, get) + KeepReachable(b, get)
  {
    if a != [] {
      KeepReachableAppend(a[1..], b, get);
      assert (a + b)[1..] == a[1..] + b;
    } else {
      assert a + b == b;
    }
  }

  /** A candidate whose request fails (an exception or a status of 400 or
      more) contributes nothing, and the candidates after it are still probed:
      removing it leaves the findings unchanged. */
  lemma FailedCandidateDropped(urls: seq<string>, get: string -> Response, k: nat)
    requires k < |urls| && !Reachable(get(urls[k]))
    ensures KeepReachable(urls, get) == KeepReachable(urls[..k] + urls[k + 1..], get)
  {
    assert urls == urls[..k] + ([urls[k]] + urls[k + 1..]);
    KeepReachableAppend(urls[..k], [urls[k]] + urls[k + 1..], get);
    KeepReachableAppend([urls[k]], urls[k + 1..], get);
    KeepReachableAppend(urls[..k], urls[k + 1..], get);
  }

  /** `f"https://{subdomain}.{target}"`. */
  function SubdomainUrl(target: string, subdomain: string): string
  {
    "https://" + subdomain + "." + target
  }

  /** The candidate URLs of `SubdomainEnumerator`, one per prefix. */
  function SubdomainUrls(target: string, subdomains: seq<string>): (urls: seq<string>)
    ensures |urls| == |subdomains|
    ensures forall k :: 0 <= k < |urls| ==> urls[k] == SubdomainUrl(target, subdomains[k])
  {
    if subdomains == [] then [] else [SubdomainUrl(target, subdomains[0])] + SubdomainUrls(target, subdomains[1..])
  }

  /** One iteration of the probing loop over the candidates from index `i` on. */
  lemma SubdomainStep(target: string, subdomains: seq<string>, i: nat, get: string -> Response, found: seq<string>)
    requires i < |subdomains|
    requires found + KeepReachable(SubdomainUrls(target, subdomains[i..]), get) == KeepReachable(SubdomainUrls(target, subdomains), get)
    ensures var url := SubdomainUrl(target, subdomains[i]);
            (if Reachable(get(url)) then found + [url] else found)
              + KeepReachable(SubdomainUrls(target, subdomains[i + 1..]), get)
            == KeepReachable(SubdomainUrls(target, subdomains), get)
  {
    var url := SubdomainUrl(target, subdomains[i]);
    var rest := SubdomainUrls(target, subdomains[i + 1..]);
    assert subdomains[i..][1..] == subdomains[i + 1..];
    assert SubdomainUrls(target, subdomains[i..]) == [url] + rest;
    KeepReachableCons(url, rest, get);
  }

  /** `SubdomainEnumerator(target, subdomains).enumerate()`. */
  method SubdomainEnumerate(target: string, subdomains: seq<string>, get: string -> Response)
    returns (found: seq<string>)
    ensures found == KeepReachable(SubdomainUrls(target, subdomains), get)
    ensures |found| <= |subdomains|
  {
    found := [];
    var i := 0;
    while i < |subdomains|
      invariant 0 <= i <= |subdomains|
      invariant found + KeepReachable(SubdomainUrls(target, subdomains[i..]), get)
             == KeepReachable(SubdomainUrls(target, subdomains), get)
    {
      var url := SubdomainUrl(target, subdomains[i]);
      SubdomainStep(target, subdomains, i, get, found);
      var response := get(url);
      if Reachable(response) {
        found := found + [url];
      }
      i := i + 1;
    }
    assert subdomains[i..] == [];
  }

  /** `f"http://{target}/{directory}"`. */
  function DirectoryUrl(target: string, directory: string): string
  {
    "http://" + target + "/" + directory
  }

  /** The candidate URLs of `DirectoryEnumerator`, one per word. */
  function DirectoryUrls(target: string, wordlist: seq<string>): (urls: seq<string>)
    ensures |urls| == |wordlist|
    ensures forall k :: 0 <= k < |urls| ==> urls[k] == DirectoryUrl(target, wordlist[k])
  {
    if wordlist == [] then [] else [DirectoryUrl(target, wordlist[0])] + DirectoryUrls(target, wordlist[1..])
  }

  /** One iteration of the probing loop over the candidates from index `i` on. */
  lemma DirectoryStep(target: string, wordlist: seq<string>, i: nat, get: string -> Response, found: seq<string>)
    requires i < |wordlist|
    requires found + KeepReachable(DirectoryUrls(target, wordlist[i..]), get) == KeepReachable(DirectoryUrls(target, wordlist), get)
    ensures var url := DirectoryUrl(target, wordlist[i]);
            (if Reachable(get(url)) then found + [url] else found)
              + KeepReachable(DirectoryUrls(target, wordlist[i + 1..]), get)
            == KeepReachable(DirectoryUrls(target, wordlist), get)
  {
    var url := DirectoryUrl(target, wordlist[i]);
    var rest := DirectoryUrls(target, wordlist[i + 1..]);
    assert wordlist[i..][1..] == wordlist[i + 1..];
    assert DirectoryUrls(target, wordlist[i..]) == [url] + rest;
    KeepReachableCons(url, rest, get);
  }

  /** `DirectoryEnumerator(target, wordlist).enumerate()` of the alternate implementation. */
  method DirectoryEnumerate(target: string, wordlist: seq<string>, get: string -> Response)
    returns (found: seq<string>)
    ensures found == KeepReachable(DirectoryUrls(target, wordlist), get)
    ensures |found| <= |wordlist|
  {
    found := [];
    var i := 0;
    while i < |wordlist|
      invariant 0 <= i <= |wordlist|
      invariant found + KeepReachable(DirectoryUrls(target, wordlist[i..]), get)
             == KeepReachable(DirectoryUrls(target, wordlist), get)
    {
      var url := DirectoryUrl(target, wordlist[i]);
      DirectoryStep(target, wordlist, i, get, found);
      var response := get(url);
      if Reachable(response) {
        found := found + [url];
      }
      i := i + 1;
    }
    assert wordlist[i..] == [];
  }

  /** What `connect_ex((target, port))` gives on a socket with a one-second
      timeout: an error number (0 for a completed connection), or an exception
      it does not turn into a number (an unresolvable host). */
  datatype ConnectResult = Errno(code: int) | ConnectRaised

  /** A port scan either lists the open ports or stops at the port whose
      connection attempt raised, since nothing in the scanner catches it. */
  datatype PortScanOutcome = Scanned(open: seq<int>) | Aborted(port: int)

  /** The ports of `ports` whose connection completes, in their order. */
  function OpenPorts(target: string, ports: seq<int>, connect: (string, int) -> ConnectResult)
    : (r: PortScanOutcome)
    ensures r.Scanned? ==> |r.open| <= |ports|
    ensures r.Aborted? ==> r.port in ports && connect(target, r.port) == ConnectRaised
  {
    if ports == [] then Scanned([])
    else
      match connect(target, ports[0])
      case ConnectRaised => Aborted(ports[0])
      case Errno(code) =>
        match OpenPorts(target, ports[1..], connect)
        case Aborted(p) => Aborted(p)
        case Scanned(rest) => Scanned((if code == 0 then [ports[0]] else []) + rest)
  }

  /** The findings gathered so far in front of the outcome for the remaining ports. */
  function Prepend(open: seq<int>, rest: PortScanOutcome): PortScanOutcome
  {
    match rest
    case Aborted(p) => Aborted(p)
    case Scanned(o) => Scanned(open + o)
  }

  /** One iteration of the scanning loop that does not raise. */
  lemma PortStep(target: string, ports: seq<int>, i: nat, connect: (string, int) -> ConnectResult, open: seq<int>)
    requires i < |ports| && connect(target, ports[i]).Errno?
    requires Prepend(open, OpenPorts(target, ports[i..], connect)) == OpenPorts(target, ports, connect)
    ensures Prepend(if connect(target, ports[i]).code == 0 then open + [ports[i]] else open,
                    OpenPorts(target, ports[i + 1..], connect))
         == OpenPorts(target, ports, connect)
  {
    assert ports[i..][1..] == ports[i + 1..];
  }

  /** `PortScanner(target, ports).enumerate()`. */
  method PortScan(target: string, ports: seq<int>, connect: (string, int) -> ConnectResult)
    returns (outcome: PortScanOutcome)
    ensures outcome == OpenPorts(target, ports, connect)
  {
    var open: seq<int> := [];
    var i := 0;
    while i < |ports|
      invariant 0 <= i <= |ports|
      invariant Prepend(open, OpenPorts(target, ports[i..], connect)) == OpenPorts(target, ports, connect)
    {
      var result := connect(target, ports[i]);
      if result.ConnectRaised? {
        return Aborted(ports[i]);
      }
      PortStep(target, ports, i, connect, open);
      if result.code == 0 {
        open := open + [ports[i]];
      }
      i := i + 1;
    }
    assert ports[i..] == [];
    outcome := Scanned(open);
  }

  /** When no attempt raises, a port is reported open iff it is in the list
      and its connection completes; nothing outside the list is reported. */
  lemma {:induction false} OpenPortsMembers(target: string, ports: seq<int>, connect: (string, int) -> ConnectResult, port: int)
    requires forall k :: 0 <= k < |ports| ==> connect(target, ports[k]).Errno?
    ensures OpenPorts(target, ports, connect).Scanned?
    ensures port in OpenPorts(target, ports, connect).open <==> port in ports && connect(target, port) == Errno(0)
  {
    if ports != [] {
      OpenPortsMembers(target, ports[1..], connect, port);
      assert ports == [ports[0]] + ports[1..];
    }
  }

  /** A completed scan reports the open ports in list order, each no more
      often than it is listed. */
  lemma {:induction false} OpenPortsOrdered(target: string, ports: seq<int>, connect: (string, int) -> ConnectResult)
    ensures OpenPorts(target, ports, connect).Scanned? ==> IsSubsequence(OpenPorts(target, ports, connect).open, ports)
  {
    if ports != [] && connect(target, ports[0]).Errno? {
      OpenPortsOrdered(target, ports[1..], connect);
      var rest := OpenPorts(target, ports[1..], connect);
      if rest.Scanned? {
        if connect(target, ports[0]).code == 0 {
          assert OpenPorts(target, ports, connect).open == [ports[0]] + rest.open;
          assert ([ports[0]] + rest.open)[1..] == rest.open;
        } else {
          assert OpenPorts(target, ports, connect).open == rest.open;
        }
      }
    }
  }

  /** Scanning a concatenation of port lists, when no attempt in the first
      raises, puts the open ports of the first in front of the outcome for the
      second. */
  lemma {:induction false} OpenPortsAppend(target: string, a: seq<int>, b: seq<int>, connect: (string, int) -> ConnectResult)
    requires forall k :: 0 <= k < |a| ==> connect(target, a[k]).Errno?
    ensures OpenPorts(target, a, connect).Scanned?
    ensures OpenPorts(target, a + b, connect) == Prepend(OpenPorts(target, a, connect).open, OpenPorts(target, b, connect))
  {
    if a == [] {
      assert a + b == b;
    } else {
      var code := connect(target, a[0]).code;
      var head := if code == 0 then [a[0]] else [];
      assert connect(target, a[0]) == Errno(code);
      assert (a + b)[0] == a[0];
      assert (a + b)[1..] == a[1..] + b;
      OpenPortsAppend(target, a[1..], b, connect);
      var open := OpenPorts(target, a[1..], connect).open;
      assert OpenPorts(target, a, connect) == Scanned(head + open);
      match OpenPorts(target, b, connect)
      case Aborted(p) =>
      case Scanned(o) =>
        assert head + (open + o) == (head + open) + o;
    }
  }

  /** The scan stops at the first port whose attempt raises. */
  lemma {:induction false} OpenPortsAbortsAtFirstRaise(target: string, ports: seq<int>, connect: (string, int) -> ConnectResult, k: nat)
    requires k < |ports| && connect(target, ports[k]) == ConnectRaised
    requires forall j :: 0 <= j < k ==> connect(target, ports[j]).Errno?
    ensures OpenPorts(target, ports, connect) == Aborted(ports[k])
  {
    if k > 0 {
      OpenPortsAbortsAtFirstRaise(target, ports[1..], connect, k - 1);
    }
  }

  /** The prefixes and ports the command-line scan uses. */
  const CliSubdomains: seq<string> := ["www", "test", "dev", "staging"]
  const CliPorts: seq<int> := [80, 443, 8080, 22]

  /** What was saved to the results file, or the scan died on a port exception. */
  datatype CliScanOutcome =
    | InvalidTarget
    | Completed(subdomains: seq<string>, openPorts: seq<int>)
    | Crashed(port: int)

  /** The "Run Enumeration" choice of the command-line menu: the target is
      stripped and refused when blank; otherwise `run_enumeration(target)`
      runs the subdomain probe and then the port scan over the fixed lists. */
  method CliScan(rawTarget: string, get: string -> Response, connect: (string, int) -> ConnectResult)
    returns (outcome: CliScanOutcome)
    ensures outcome == InvalidTarget <==> AllSpace(rawTarget)
    ensures outcome.Completed? ==>
              && outcome.subdomains == KeepReachable(SubdomainUrls(Strip(rawTarget), CliSubdomains), get)
              && OpenPorts(Strip(rawTarget), CliPorts, connect) == Scanned(outcome.openPorts)
    ensures outcome.Crashed? ==> OpenPorts(Strip(rawTarget), CliPorts, connect) == Aborted(outcome.port)
    ensures !AllSpace(rawTarget) ==> (outcome.Crashed? <==> OpenPorts(Strip(rawTarget), CliPorts, connect).Aborted?)
  {
    var target := Strip(rawTarget);
    StripEmptyIffAllSpace(rawTarget);
    if target == [] {
      return InvalidTarget;
    }
    var subdomains := SubdomainEnumerate(target, CliSubdomains, get);
    var ports := PortScan(target, CliPorts, connect);
    match ports
    case Aborted(p) => outcome := Crashed(p);
    case Scanned(open) => outcome := Completed(subdomains, open);
  }

  /** Of the prefixes `www` and `test`, when only `www` answers (200) and
      `test` times out, exactly the `www` URL is found. */
  lemma SubdomainExample(get: string -> Response)
    requires get("https://www.example.com") == Status(200)
    requires get("https://test.example.com") == RequestFailed
    ensures KeepReachable(SubdomainUrls("example.com", ["www", "test"]), get) == ["https://www.example.com"]
  {
    assert SubdomainUrl("example.com", "www") == "https://www.example.com";
    assert SubdomainUrl("example.com", "test") == "https://test.example.com";
    assert ["www", "test"][1..] == ["test"];
    assert SubdomainUrls("example.com", ["www", "test"]) == ["https://www.example.com", "https://test.example.com"];
  }

  /** Of the ports 80 and 81, when 80 has a listener and 81 refuses, 80 alone is open. */
  lemma PortExample(connect: (string, int) -> ConnectResult)
    requires connect("localhost", 80) == Errno(0)
    requires connect("localhost", 81) == Errno(111)
    ensures OpenPorts("localhost", [80, 81], connect) == Scanned([80])
  {
    assert [80, 81][1..] == [81];
  }
}
