/**
 * The gallery's manifest poller: each tick optionally asks for the manifest's
 * headers only, stops there when the ETag or Last-Modified token matches the
 * one recorded, and otherwise fetches the manifest, records its tokens and
 * replaces the item list with it. Every tick reschedules the next one unless
 * the component has been torn down.
 *
 * Network results are parameters: the outcome of the HEAD request, the outcome
 * of the GET request, and the clock reading used by the cache-buster.
 */
module Gallery {
  import opened Wrappers

  const IndexUrl: string := "https://hansik-dummy-images.s3.eu-north-1.amazonaws.com/index.json"
  const DefaultFailure: string := "Failed to load index"
  const NotArrayFailure: string := "index.json is not an array"

  /** A parsed JSON value; numbers are integers here. */
  datatype Json =
    | Null
    | Bool(b: bool)
    | Number(n: int)
    | Str(s: string)
    | Array(elems: seq<Json>)
    | Object(members: seq<(string, Json)>)

  /** What the HEAD request came to. Header values are `None` when absent. */
  datatype HeadOutcome =
    | HeadThrew
    | HeadNotOk
    | HeadOk(etag: Option<string>, lastModified: Option<string>)

  /** What reading the GET response's body as JSON came to. */
  datatype Body = Parsed(value: Json) | Unparsable(message: string)

  /** What the GET request came to. */
  datatype GetOutcome =
    | GetThrew(message: string)
    | GetNotOk(status: nat)
    | GetOk(etag: Option<string>, lastModified: Option<string>, body: Body)

  /** A request the poller issues. */
  datatype Request = Head(url: string) | Get(url: string)

  /** The change-detection tokens last recorded. */
  datatype Tokens = Tokens(etag: Option<string>, lastModified: Option<string>)

  /** How one refresh ends: no change, a new item list, or an error thrown with a message. */
  datatype Outcome = Unchanged | Updated(items: seq<Json>) | Failed(message: string)

  /** One refresh: the tokens afterwards, the requests issued, and the outcome. */
  datatype Fetch = Fetch(tokens: Tokens, requests: seq<Request>, outcome: Outcome)

  /** The component's props. */
  datatype Config = Config(pollMs: nat, fastFirstLoad: bool, onlyIfChanged: bool)

  /** Everything a tick reads or writes. */
  datatype PollerState = PollerState(
    tokens: Tokens,
    items: seq<Json>,
    error: Option<string>,
    unmounted: bool,
    timerPending: bool)

  /** One tick: the state afterwards and the requests issued. */
  datatype Cycle = Cycle(state: PollerState, requests: seq<Request>)

  function Digit(d: nat): char
    requires d < 10
  {
    ('0' as int + d) as char
  }

  predicate AllDigits(s: string)
  {
    forall i :: 0 <= i < |s| ==> '0' <= s[i] <= '9'
  }

  /** The number a run of decimal digits denotes, most significant digit first. */
  function DecimalValue(s: string): nat
    requires AllDigits(s)
  {
    if s == [] then 0 else DecimalValue(s[..|s| - 1]) * 10 + (s[|s| - 1] as int - '0' as int)
  }

  /** `String(n)`: the decimal text of `n`, which reads back as `n`. */
  function Decimal(n: nat): (s: string)
    ensures |s| > 0 && AllDigits(s) && DecimalValue(s) == n
    ensures |s| == 1 || s[0] != '0'
  {
    if n < 10 then [Digit(n)]
    else
      var s := Decimal(n / 10) + [Digit(n % 10)];
      assert s[..|s| - 1] == Decimal(n / 10);
      s
  }

  /** Distinct statuses are written differently. */
  lemma DecimalInjective(m: nat, n: nat)
    requires Decimal(m) == Decimal(n)
    ensures m == n
  {
  }

  /** The URL of a refresh: with a `?t=<now>` cache-buster, or the plain manifest URL. */
  function RequestUrl(useCacheBuster: bool, now: nat): string
  {
    if useCacheBuster then IndexUrl + "?t=" + Decimal(now) else IndexUrl
  }

  /** An incoming token matches a stored one: both present, non-empty and equal. */
  predicate SameToken(incoming: Option<string>, stored: Option<string>)
  {
    Truthy(incoming) && Truthy(stored) && incoming == stored
  }

  /** The HEAD response says the manifest has not changed. */
  predicate HeadSaysUnchanged(t: Tokens, head: HeadOutcome)
  {
    head.HeadOk? && (SameToken(head.etag, t.etag) || SameToken(head.lastModified, t.lastModified))
  }

  /** A token from a response replaces the stored one only when it is present and non-empty. */
  function Record(incoming: Option<string>, stored: Option<string>): (r: Option<string>)
    ensures Truthy(incoming) ==> r == incoming
    ensures !Truthy(incoming) ==> r == stored
  {
    if Truthy(incoming) then incoming else stored
  }

  /**
   * `fetchIndex`: the requests it issues, the tokens it leaves, and how it ends.
   */
  function FetchSpec(t: Tokens, onlyIfChanged: bool, url: string, head: HeadOutcome, get: GetOutcome): (f: Fetch)
    // a matching ETag or Last-Modified ends the refresh after the HEAD request, changing nothing
    ensures f.outcome.Unchanged? <==> onlyIfChanged && HeadSaysUnchanged(t, head)
    ensures f.outcome.Unchanged? ==> f.tokens == t && f.requests == [Head(url)]
    // a HEAD that throws or is not ok is never the end: the GET follows
    ensures !f.outcome.Unchanged? ==> f.requests == (if onlyIfChanged then [Head(url)] else []) + [Get(url)]
    // a failed GET changes no token
    ensures get.GetNotOk? && !f.outcome.Unchanged? ==>
              f.outcome == Failed("Failed to load index (" + Decimal(get.status) + ")") && f.tokens == t
    ensures get.GetThrew? && !f.outcome.Unchanged? ==> f.outcome == Failed(get.message) && f.tokens == t
    // a body that does not parse fails with the parser's message
    ensures get.GetOk? && get.body.Unparsable? && !f.outcome.Unchanged? ==> f.outcome == Failed(get.body.message)
    // a GET that succeeds records its tokens whatever its body turns out to be
    ensures get.GetOk? && !f.outcome.Unchanged? ==>
              f.tokens == Tokens(Record(get.etag, t.etag), Record(get.lastModified, t.lastModified))
    // only an array body updates the items; any other body is an error
    ensures f.outcome.Updated? <==>
              !f.outcome.Unchanged? && get.GetOk? && get.body.Parsed? && get.body.value.Array?
    ensures f.outcome.Updated? ==> f.outcome.items == get.body.value.elems
    ensures get.GetOk? && get.body.Parsed? && !get.body.value.Array? && !f.outcome.Unchanged? ==>
              f.outcome == Failed(NotArrayFailure)
  {
    var headRequests := if onlyIfChanged then [Head(url)] else [];
    if onlyIfChanged && HeadSaysUnchanged(t, head) then
      Fetch(t, headRequests, Unchanged)
    else
      var requests := headRequests + [Get(url)];
      match get
      case GetThrew(message) => Fetch(t, requests, Failed(message))
      case GetNotOk(status) => Fetch(t, requests, Failed("Failed to load index (" + Decimal(status) + ")"))
      case GetOk(etag, lastModified, body) =>
        var tokens := Tokens(Record(etag, t.etag), Record(lastModified, t.lastModified));
        match body
        case Unparsable(message) => Fetch(tokens, requests, Failed(message))
        case Parsed(Array(elems)) => Fetch(tokens, requests, Updated(elems))
        case Parsed(_) => Fetch(tokens, requests, Failed(NotArrayFailure))
  }

  /** The message a failed tick displays: the error's message, or a default when it is empty. */
  function FailureText(message: string): string
  {
    if message == "" then DefaultFailure else message
  }

  /**
   * `tick`: one refresh, then its error handling and the rescheduling. The
   * first tick after mounting may use the cache-buster URL.
   */
  function TickSpec(s: PollerState, cfg: Config, first: bool, now: nat, head: HeadOutcome, get: GetOutcome): (c: Cycle)
    ensures var f := FetchSpec(s.tokens, cfg.onlyIfChanged, RequestUrl(first && cfg.fastFirstLoad, now), head, get);
            && c.requests == f.requests
            && c.state.tokens == f.tokens
            // the items change only through a successful refresh, which also clears the error
            && (f.outcome.Updated? ==> c.state.items == f.outcome.items && c.state.error == None)
            && (!f.outcome.Updated? ==> c.state.items == s.items)
            && (f.outcome.Unchanged? ==> c.state.error == s.error)
            // a failure is displayed only while mounted
            && (f.outcome.Failed? ==> c.state.error == if s.unmounted then s.error else Some(FailureText(f.outcome.message)))
    // the tick always reschedules, unless torn down
    ensures c.state.unmounted == s.unmounted
    ensures c.state.timerPending <==> !s.unmounted
    // only a first tick can use the cache-buster
    ensures !(first && cfg.fastFirstLoad) ==> forall r :: r in c.requests ==> r.url == IndexUrl
  {
    var f := FetchSpec(s.tokens, cfg.onlyIfChanged, RequestUrl(first && cfg.fastFirstLoad, now), head, get);
    var items := if f.outcome.Updated? then f.outcome.items else s.items;
    var error :=
      match f.outcome
      case Unchanged => s.error
      case Updated(_) => None
      case Failed(message) => if s.unmounted then s.error else Some(FailureText(message));
    Cycle(PollerState(f.tokens, items, error, s.unmounted, !s.unmounted), f.requests)
  }

  /**
   * The HEAD request is only an optimisation: unless it ends the refresh, the
   * refresh comes out exactly as it would have without it.
   */
  lemma HeadCheckIsOptimisation(t: Tokens, url: string, head: HeadOutcome, get: GetOutcome)
    ensures var on := FetchSpec(t, true, url, head, get);
            var off := FetchSpec(t, false, url, head, get);
            on.outcome.Unchanged? ||
            (on.outcome == off.outcome && on.tokens == off.tokens && on.requests == [Head(url)] + off.requests)
  {
  }

  /**
   * Once a GET has recorded a non-empty ETag, the next tick, with change
   * detection on, whose HEAD reports the same ETag issues no GET and leaves items, error and tokens as they were.
   */
  lemma RecordedEtagShortCircuits(s: PollerState, cfg: Config, first: bool, now: nat, head: HeadOutcome,
                                  etag: string, lastModified: Option<string>, body: Body,
                                  now2: nat, lastModified2: Option<string>, get2: GetOutcome)
    requires cfg.onlyIfChanged && etag != ""
    requires !HeadSaysUnchanged(s.tokens, head)
    ensures var c1 := TickSpec(s, cfg, first, now, head, GetOk(Some(etag), lastModified, body));
            var c2 := TickSpec(c1.state, cfg, false, now2, HeadOk(Some(etag), lastModified2), get2);
            && c2.requests == [Head(IndexUrl)]
            && c2.state.items == c1.state.items
            && c2.state.error == c1.state.error
            && c2.state.tokens == c1.state.tokens
  {
    var c1 := TickSpec(s, cfg, first, now, head, GetOk(Some(etag), lastModified, body));
    assert c1.state.tokens.etag == Some(etag);
    assert HeadSaysUnchanged(c1.state.tokens, HeadOk(Some(etag), lastModified2));
  }

  /** After teardown a tick schedules nothing and displays no error. */
  lemma TeardownQuiesces(s: PollerState, cfg: Config, first: bool, now: nat, head: HeadOutcome, get: GetOutcome)
    requires s.unmounted
    ensures var c := TickSpec(s, cfg, first, now, head, get);
            !c.state.timerPending && c.state.unmounted && (c.state.error == s.error || c.state.error == None)
  {
  }

  /** The inputs of one tick. */
  datatype TickInput = TickInput(first: bool, now: nat, head: HeadOutcome, get: GetOutcome)

  /** The state after a sequence of ticks. */
  function Run(s: PollerState, cfg: Config, ticks: seq<TickInput>): PollerState
  {
    if ticks == [] then s
    else
      var last := ticks[|ticks| - 1];
      TickSpec(Run(s, cfg, ticks[..|ticks| - 1]), cfg, last.first, last.now, last.head, last.get).state
  }

  /**
   * The displayed items are always either the ones held before the ticks or
   * exactly the array body of one of the GET responses: malformed data never
   * replaces them.
   */
  lemma {:induction false} ItemsComeFromArrayBodies(s: PollerState, cfg: Config, ticks: seq<TickInput>)
    ensures var items := Run(s, cfg, ticks).items;
            items == s.items ||
            exists i :: 0 <= i < |ticks| && ticks[i].get.GetOk? && ticks[i].get.body == Parsed(Array(items))
  {
    if ticks != [] {
      var init, last := ticks[..|ticks| - 1], ticks[|ticks| - 1];
      var before := Run(s, cfg, init);
      ItemsComeFromArrayBodies(s, cfg, init);
      var items := Run(s, cfg, ticks).items;
      if items != before.items {
        var i := |ticks| - 1;
        assert ticks[i].get.GetOk? && ticks[i].get.body == Parsed(Array(items));
      } else if items != s.items {
        var i :| 0 <= i < |init| && init[i].get.GetOk? && init[i].get.body == Parsed(Array(before.items));
        assert ticks[i] == init[i];
      }
    }
  }

  /**
   * The two-tick scenario: a first tick gets ETag "v1" and the body [{key: "x"}];
   * the second tick's HEAD reports "v1" again, so no GET follows and the items stay.
   */
  lemma EtagScenario(now: nat, get2: GetOutcome)
    ensures var cfg := Config(15000, true, true);
            var s0 := PollerState(Tokens(None, None), [], None, false, false);
            var item := Object([("key", Str("x"))]);
            var c1 := TickSpec(s0, cfg, true, now, HeadOk(Some("v1"), None), GetOk(Some("v1"), None, Parsed(Array([item]))));
            var c2 := TickSpec(c1.state, cfg, false, now + 15000, HeadOk(Some("v1"), None), get2);
            && c1.requests == [Head(RequestUrl(true, now)), Get(RequestUrl(true, now))]
            && c1.state.items == [item]
            && c2.requests == [Head(IndexUrl)]
            && c2.state.items == [item]
            && c2.state.timerPending
  {
  }

  /**
   * One mounted Gallery. The refs and the React state are fields; a pending
   * `setTimeout` is `timerPending`.
   */
  class Poller {
    const config: Config
    var lastEtag: Option<string>
    var lastModified: Option<string>
    var items: seq<Json>
    var error: Option<string>
    var unmounted: bool
    var timerPending: bool

    /** A torn-down poller has no timer pending. */
    ghost predicate Valid()
      reads this
    {
      unmounted ==> !timerPending
    }

    function State(): PollerState
      reads this
    {
      PollerState(Tokens(lastEtag, lastModified), items, error, unmounted, timerPending)
    }

    /** The component's first render: empty items, no error, no tokens, no timer. */
    constructor (pollMs: nat, fastFirstLoad: bool, onlyIfChanged: bool)
      ensures Valid()
      ensures config == Config(pollMs, fastFirstLoad, onlyIfChanged)
      ensures State() == PollerState(Tokens(None, None), [], None, false, false)
    {
      config := Config(pollMs, fastFirstLoad, onlyIfChanged);
      lastEtag, lastModified := None, None;
      items, error := [], None;
      unmounted, timerPending := false, false;
    }

    /** `fetchIndex`; a thrown error is returned as its message. */
    method FetchIndex(useCacheBuster: bool, now: nat, head: HeadOutcome, get: GetOutcome)
      returns (requests: seq<Request>, thrown: Option<string>)
      modifies this`lastEtag, this`lastModified, this`items, this`error
      ensures var f := FetchSpec(old(State()).tokens, config.onlyIfChanged, RequestUrl(useCacheBuster, now), head, get);
              && requests == f.requests
              && Tokens(lastEtag, lastModified) == f.tokens
              && thrown == (if f.outcome.Failed? then Some(f.outcome.message) else None)
              && items == (if f.outcome.Updated? then f.outcome.items else old(items))
              && error == (if f.outcome.Updated? then None else old(error))
    {
      var url := RequestUrl(useCacheBuster, now);
      requests := [];
      if config.onlyIfChanged {
        requests := requests + [Head(url)];
        match head {
          case HeadOk(etag, lastMod) =>
            var sameEtag := Truthy(etag) && Truthy(lastEtag) && etag == lastEtag;
            var sameLastMod := Truthy(lastMod) && Truthy(lastModified) && lastMod == lastModified;
            if sameEtag || sameLastMod {
              return requests, None;
            }
          case _ =>
            // a HEAD that throws or is not ok is ignored
        }
      }
      requests := requests + [Get(url)];
      match get {
        case GetThrew(message) =>
          return requests, Some(message);
        case GetNotOk(status) =>
          return requests, Some("Failed to load index (" + Decimal(status) + ")");
        case GetOk(etag, lastMod, body) =>
          if Truthy(etag) {
            lastEtag := etag;
          }
          if Truthy(lastMod) {
            lastModified := lastMod;
          }
          match body {
            case Unparsable(message) =>
              return requests, Some(message);
            case Parsed(data) =>
              if !data.Array? {
                return requests, Some(NotArrayFailure);
              }
              items := data.elems;
              error := None;
              return requests, None;
          }
      }
    }

    /** `tick`: a refresh, the catch that displays its error, and the finally that reschedules. */
    method Tick(first: bool, now: nat, head: HeadOutcome, get: GetOutcome) returns (requests: seq<Request>)
      requires !timerPending
      modifies this
      ensures var c := TickSpec(old(State()), config, first, now, head, get);
              State() == c.state && requests == c.requests
    {
      var thrown;
      requests, thrown := FetchIndex(first && config.fastFirstLoad, now, head, get);
      if thrown.Some? && !unmounted {
        error := Some(FailureText(thrown.value));
      }
      if !unmounted {
        timerPending := true;
      }
    }

    /** The effect: marks the poller mounted and runs the first tick. */
    method Effect(now: nat, head: HeadOutcome, get: GetOutcome) returns (requests: seq<Request>)
      requires Valid() && !timerPending
      modifies this
      ensures Valid() && timerPending && !unmounted
      ensures var c := TickSpec(old(State()).(unmounted := false), config, true, now, head, get);
              State() == c.state && requests == c.requests
    {
      unmounted := false;
      requests := Tick(true, now, head, get);
    }

    /** The pending timer fires and runs a tick that is not the first. */
    method TimerFires(now: nat, head: HeadOutcome, get: GetOutcome) returns (requests: seq<Request>)
      requires Valid() && timerPending
      modifies this
      ensures Valid() && timerPending && !unmounted
      ensures forall r :: r in requests ==> r.url == IndexUrl
      ensures var c := TickSpec(old(State()).(timerPending := false), config, false, now, head, get);
              State() == c.state && requests == c.requests
    {
      timerPending := false;
      requests := Tick(false, now, head, get);
    }

    /** The effect's cleanup: marks the poller unmounted and clears the pending timer. */
    method Cleanup()
      modifies this`unmounted, this`timerPending
      ensures Valid() && unmounted && !timerPending
    {
      unmounted := true;
      timerPending := false;
    }
  }
}
