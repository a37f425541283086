/** Command-line and configuration helpers of the course-catalog par sync script
    (golfcourseapi-sync.mjs): option parsing, integer options with a fallback, the
    area-code filter, API-key masking and the retry decision of the HTTP client. */
module SyncArgs {
  import opened JsText

  // ---------------------------------------------------------------- parseArgs

  /** Key and inline value of an option "--key[=value[=...]]": the text between
      the first and the second '=' is the value, as `split('=')` destructuring does. */
  function OptionKey(arg: string): string
    requires StartsWith(arg, "--")
  {
    Split(arg[2..], '=')[0]
  }

  function InlineValue(arg: string): Option<string>
    requires StartsWith(arg, "--")
  {
    var parts := Split(arg[2..], '=');
    if |parts| > 1 then Some(parts[1]) else None
  }

  /** A following argument is taken as the value when it is non-empty and is not an option. */
  predicate TakesNext(argv: seq<string>, i: nat) {
    i + 1 < |argv| && argv[i + 1] != "" && !StartsWith(argv[i + 1], "--")
  }

  /** What the scan from index i adds to `acc`; later settings of a key win. */
  function ArgsFrom(argv: seq<string>, i: nat, acc: map<string, string>): map<string, string>
    decreases |argv| - i
  {
    if i >= |argv| then acc
    else if !StartsWith(argv[i], "--") then ArgsFrom(argv, i + 1, acc)
    else
      var key := OptionKey(argv[i]);
      match InlineValue(argv[i])
        case Some(v) => ArgsFrom(argv, i + 1, acc[key := v])
        case None =>
          if TakesNext(argv, i) then ArgsFrom(argv, i + 2, acc[key := argv[i + 1]])
          else ArgsFrom(argv, i + 1, acc[key := "true"])
  }

  /** The effect of one option that is the last argument. */
  function LastOption(acc: map<string, string>, arg: string): map<string, string>
    requires StartsWith(arg, "--")
  {
    acc[OptionKey(arg) := if InlineValue(arg).Some? then InlineValue(arg).value else "true"]
  }

  /** parseArgs: the index loop that may step over the value of an option. */
  method ParseArgs(argv: seq<string>) returns (args: map<string, string>)
    ensures args == ArgsFrom(argv, 0, map[])
  {
    args := map[];
    var i := 0;
    while i < |argv|
      invariant 0 <= i <= |argv| + 1
      invariant ArgsFrom(argv, i, args) == ArgsFrom(argv, 0, map[])
      decreases |argv| - i
    {
      var arg := argv[i];
      if !StartsWith(arg, "--") {
        i := i + 1;
        continue;
      }
      var parts := Split(arg[2..], '=');
      var key := parts[0];
      if |parts| > 1 {
        args := args[key := parts[1]];
        i := i + 1;
        continue;
      }
      if i + 1 < |argv| && argv[i + 1] != "" && !StartsWith(argv[i + 1], "--") {
        args := args[key := argv[i + 1]];
        i := i + 1;
      } else {
        args := args[key := "true"];
      }
      i := i + 1;
    }
  }

  /** Every key of the parsed map is the key of some option argument. */
  lemma {:induction false} ArgsKeysFromOptions(argv: seq<string>, i: nat, acc: map<string, string>, k: string)
    requires k in ArgsFrom(argv, i, acc)
    ensures k in acc || exists j :: i <= j < |argv| && StartsWith(argv[j], "--") && OptionKey(argv[j]) == k
    decreases |argv| - i
  {
    if i < |argv| {
      if !StartsWith(argv[i], "--") {
        ArgsKeysFromOptions(argv, i + 1, acc, k);
      } else {
        var key := OptionKey(argv[i]);
        match InlineValue(argv[i])
        case Some(v) =>
          ArgsKeysFromOptions(argv, i + 1, acc[key := v], k);
        case None =>
          if TakesNext(argv, i) {
            ArgsKeysFromOptions(argv, i + 2, acc[key := argv[i + 1]], k);
          } else {
            ArgsKeysFromOptions(argv, i + 1, acc[key := "true"], k);
          }
      }
    }
  }

  /** An option appended at the end of the command line overrides every earlier
      setting of its key, and nothing else changes. */
  lemma {:induction false} LastOptionWins(argv: seq<string>, x: string, i: nat, acc: map<string, string>)
    requires StartsWith(x, "--") && i <= |argv|
    ensures ArgsFrom(argv + [x], i, acc) == LastOption(ArgsFrom(argv, i, acc), x)
    decreases |argv| - i
  {
    var all := argv + [x];
    if i == |argv| {
      assert all[i] == x;
      assert !TakesNext(all, i);
    } else {
      assert all[i] == argv[i];
      assert TakesNext(all, i) <==> TakesNext(argv, i) by {
        if i + 1 < |argv| { assert all[i + 1] == argv[i + 1]; }
        if i + 1 == |argv| { assert all[i + 1] == x; }
      }
      if !StartsWith(argv[i], "--") {
        LastOptionWins(argv, x, i + 1, acc);
      } else {
        var key := OptionKey(argv[i]);
        match InlineValue(argv[i])
        case Some(v) =>
          LastOptionWins(argv, x, i + 1, acc[key := v]);
        case None =>
          if TakesNext(argv, i) {
            LastOptionWins(argv, x, i + 2, acc[key := argv[i + 1]]);
          } else {
            LastOptionWins(argv, x, i + 1, acc[key := "true"]);
          }
      }
    }
  }

  // ------------------------------------------------------------- parseInteger

  /** parseInteger: an absent or empty value, or one parseInt reads as NaN, gives the fallback. */
  function ParseInteger(value: Option<string>, fallback: Option<int>): (r: Option<int>)
    ensures value.None? || value == Some("") ==> r == fallback
    ensures value.Some? && value.value != "" && ParseInt(value.value).Some? ==> r == ParseInt(value.value)
    ensures value.Some? && ParseInt(value.value).None? ==> r == fallback
  {
    if value.None? || value.value == "" then fallback
    else match ParseInt(value.value)
      case Some(n) => Some(n)
      case None => fallback
  }

  /** A number written by String() is read back whatever the fallback. */
  lemma ParseIntegerOfString(n: int, fallback: Option<int>)
    ensures ParseInteger(Some(IntToString(n)), fallback) == Some(n)
  {
    IntToStringRoundTrip(n);
  }

  // --------------------------------------------------------------- parseAreas

  /** The comma-separated parts, trimmed, empty ones dropped. */
  function AreaParts(value: string): seq<string> {
    NonEmptyTrimmed(Split(value, ','))
  }

  function NonEmptyTrimmed(pieces: seq<string>): (r: seq<string>)
    ensures forall k :: 0 <= k < |r| ==> r[k] != []
  {
    if pieces == [] then []
    else (if Trim(pieces[0]) == [] then [] else [Trim(pieces[0])]) + NonEmptyTrimmed(pieces[1..])
  }

  function Min(a: int, b: int): int { if a <= b then a else b }
  function Max(a: int, b: int): int { if a <= b then b else a }

  /** The integers lo, lo+1, ..., hi. */
  function Range(lo: int, hi: int): (r: seq<int>)
    ensures |r| == if lo <= hi then hi - lo + 1 else 0
    ensures forall k :: 0 <= k < |r| ==> r[k] == lo + k
  {
    if lo > hi then [] else seq(hi - lo + 1, k => lo + k)
  }

  /** The codes one part stands for: an inclusive range "a-b" in either order,
      or a single number; a part parseInt cannot read stands for nothing. */
  function PartCodes(part: string): seq<int> {
    if '-' in part then
      var pieces := Split(part, '-');
      var start := ParseInt(pieces[0]);
      var end := if |pieces| > 1 then ParseInt(pieces[1]) else None;
      if start.None? || end.None? then []
      else Range(Min(start.value, end.value), Max(start.value, end.value))
    else
      match ParseInt(part)
        case Some(c) => [c]
        case None => []
  }

  function AllCodes(parts: seq<string>): seq<string> {
    if parts == [] then [] else Codes(PartCodes(parts[0])) + AllCodes(parts[1..])
  }

  function Codes(ns: seq<int>): (r: seq<string>)
    ensures |r| == |ns| && forall k :: 0 <= k < |ns| ==> r[k] == IntToString(ns[k])
  {
    seq(|ns|, k requires 0 <= k < |ns| => IntToString(ns[k]))
  }

  /** The filter parseAreas builds: null for an absent or empty option. */
  function AreaFilter(value: Option<string>): Option<seq<string>> {
    if value.None? || value.value == "" then None
    else Some(AddAll([], AllCodes(AreaParts(value.value))))
  }

  lemma {:induction false} AllCodesAppend(parts: seq<string>, p: string)
    ensures AllCodes(parts + [p]) == AllCodes(parts) + Codes(PartCodes(p))
  {
    if parts == [] {
      assert parts + [p] == [p];
      assert AllCodes([p]) == Codes(PartCodes(p)) + AllCodes([]);
    } else {
      assert (parts + [p])[1..] == parts[1..] + [p];
      assert (parts + [p])[0] == parts[0];
      AllCodesAppend(parts[1..], p);
    }
  }

  lemma PartContainsDash(part: string)
    requires '-' in part
    ensures |Split(part, '-')| >= 2
  {
    if part[0] != '-' {
      PartContainsDash(part[1..]);
    }
  }

  lemma RangeStep(lo: int, code: int)
    requires lo <= code
    ensures Codes(Range(lo, code)) == Codes(Range(lo, code - 1)) + [IntToString(code)]
  {
    var a := Codes(Range(lo, code));
    var b := Codes(Range(lo, code - 1));
    forall k | 0 <= k < |a|
      ensures a[k] == (b + [IntToString(code)])[k]
    {
      if k < |b| {
        assert (b + [IntToString(code)])[k] == b[k];
      }
    }
  }

  /** One part's contribution to the running set. */
  lemma PartStep(parts: seq<string>, p: nat)
    requires p < |parts|
    ensures AddAll([], AllCodes(parts[..p + 1])) == AddAll(AddAll([], AllCodes(parts[..p])), Codes(PartCodes(parts[p])))
  {
    assert parts[..p + 1] == parts[..p] + [parts[p]];
    AllCodesAppend(parts[..p], parts[p]);
    AddAllAppend([], AllCodes(parts[..p]), Codes(PartCodes(parts[p])));
  }

  /** parseAreas: comma-separated codes and hyphen ranges collected into an
      insertion-ordered set of decimal strings. */
  method ParseAreas(value: Option<string>) returns (r: Option<seq<string>>)
    ensures r == AreaFilter(value)
    ensures r.Some? ==> Distinct(r.value)
  {
    if value.None? || value.value == "" {
      return None;
    }
    var parts := AreaParts(value.value);
    var result: seq<string> := [];
    var p := 0;
    assert AllCodes(parts[..0]) == [];
    while p < |parts|
      invariant 0 <= p <= |parts|
      invariant result == AddAll([], AllCodes(parts[..p]))
      invariant Distinct(result)
    {
      result := AddPartCodes(result, parts[p]);
      PartStep(parts, p);
      p := p + 1;
    }
    assert parts[..p] == parts;
    return Some(result);
  }

  /** The body of parseAreas' loop for one part. */
  method AddPartCodes(acc: seq<string>, part: string) returns (result: seq<string>)
    requires Distinct(acc)
    ensures result == AddAll(acc, Codes(PartCodes(part)))
    ensures Distinct(result)
  {
    result := acc;
    if '-' in part {
      var pieces := Split(part, '-');
      PartContainsDash(part);
      var start := ParseInt(pieces[0]);
      var end := ParseInt(pieces[1]);
      if start.Some? && end.Some? {
        var lo := Min(start.value, end.value);
        var hi := Max(start.value, end.value);
        var code := lo;
        while code <= hi
          invariant lo <= code <= hi + 1
          invariant result == AddAll(acc, Codes(Range(lo, code - 1)))
          invariant Distinct(result)
          decreases hi - code
        {
          RangeStep(lo, code);
          AddAllSnoc(acc, Codes(Range(lo, code - 1)), IntToString(code));
          AddKeepsDistinct(result, IntToString(code));
          result := Add(result, IntToString(code));
          code := code + 1;
        }
        assert PartCodes(part) == Range(lo, hi);
      } else {
        assert PartCodes(part) == [];
      }
    } else {
      var code := ParseInt(part);
      if code.Some? {
        assert Codes(PartCodes(part)) == [IntToString(code.value)];
        AddKeepsDistinct(result, IntToString(code.value));
        result := Add(result, IntToString(code.value));
      } else {
        assert PartCodes(part) == [];
      }
    }
  }

  /** The filter lists each code once, and exactly the codes the parts name. */
  lemma AreaFilterMembers(value: string, c: string)
    requires value != ""
    ensures AreaFilter(Some(value)).Some?
    ensures Distinct(AreaFilter(Some(value)).value)
    ensures c in AreaFilter(Some(value)).value <==> c in AllCodes(AreaParts(value))
  {
    AddAllProps([], AllCodes(AreaParts(value)));
  }

  /** A range part names every code between its ends, in either order. */
  lemma RangePartCodes(part: string, a: int, b: int, c: int)
    requires '-' in part && |Split(part, '-')| >= 2
    requires ParseInt(Split(part, '-')[0]) == Some(a)
    requires ParseInt(Split(part, '-')[1]) == Some(b)
    requires Min(a, b) <= c <= Max(a, b)
    ensures c in PartCodes(part)
  {
    PartContainsDash(part);
    var r := Range(Min(a, b), Max(a, b));
    assert r[c - Min(a, b)] == c;
  }

  // ------------------------------------------------------------------ maskKey

  /** maskKey: keys shorter than six characters are hidden entirely; longer ones
      keep their first three and last two characters around "***". */
  function MaskKey(key: string): (r: string)
    ensures |key| < 6 ==> r == "***"
    ensures |key| >= 6 ==> |r| == 8 && r[..3] == key[..3] && r[3..6] == "***" && r[6..] == key[|key| - 2..]
  {
    if |key| < 6 then "***" else key[..3] + "***" + key[|key| - 2..]
  }

  /** The mask tells apart only keys that differ in their first three or last
      two characters. */
  lemma MaskHidesMiddle(a: string, b: string)
    requires |a| >= 6 && |b| >= 6
    ensures MaskKey(a) == MaskKey(b) <==> a[..3] == b[..3] && a[|a| - 2..] == b[|b| - 2..]
  {
    if MaskKey(a) == MaskKey(b) {
      assert MaskKey(a)[..3] == MaskKey(b)[..3];
      assert MaskKey(a)[6..] == MaskKey(b)[6..];
    }
  }

  // --------------------------------------------------------- fetchJson retries

  datatype Response = Response(status: int, body: string)

  datatype FetchOutcome =
    | Fetched(attempt: nat, body: string)   // the response of that attempt is returned
    | HttpFailure(message: string)          // the error thrown, "HTTP <status>: <body prefix>"

  predicate IsOk(status: int) { 200 <= status <= 299 }

  /** The retry decision: retry while attempts remain and the status is 429 or 5xx. */
  predicate ShouldRetry(attempt: nat, retries: nat, status: int) {
    attempt < retries && (status == 429 || status >= 500)
  }

  /** The part of the body an error message shows: its first 200 characters, or all
      of it when shorter. */
  function BodyShown(body: string): (t: string)
    ensures |t| == (if |body| < 200 then |body| else 200)
    ensures t <= body
  {
    if |body| <= 200 then body else body[..200]
  }

  /** The message of the error thrown on a failed response: "HTTP ", the status and
      ": ", then the part of the body shown. */
  function ErrorMessage(r: Response): (m: string)
    ensures StartsWith(m, "HTTP ")
    ensures m == "HTTP " + IntToString(r.status) + ": " + BodyShown(r.body)
  {
    var m := "HTTP " + IntToString(r.status) + ": " + BodyShown(r.body);
    assert m[..5] == "HTTP ";
    m
  }

  /** The outcome of the attempts from `attempt` on, and the back-off delays slept. */
  function Attempts(respond: nat -> Response, retries: nat, backoffMs: nat, attempt: nat): (FetchOutcome, seq<nat>)
    requires attempt <= retries
    decreases retries - attempt
  {
    var r := respond(attempt);
    if IsOk(r.status) then (Fetched(attempt, r.body), [])
    else if ShouldRetry(attempt, retries, r.status) then
      var (o, sleeps) := Attempts(respond, retries, backoffMs, attempt + 1);
      (o, [backoffMs * (attempt + 1)] + sleeps)
    else (HttpFailure(ErrorMessage(r)), [])
  }

  /** fetchJson's loop over attempts 0..retries, with the transport given as the
      response of each attempt and the delays it sleeps recorded. */
  method FetchWithRetry(respond: nat -> Response, retries: nat, backoffMs: nat)
    returns (outcome: FetchOutcome, sleeps: seq<nat>)
    ensures (outcome, sleeps) == Attempts(respond, retries, backoffMs, 0)
  {
    sleeps := [];
    var attempt := 0;
    while true
      invariant attempt <= retries
      invariant Attempts(respond, retries, backoffMs, 0).0 == Attempts(respond, retries, backoffMs, attempt).0
      invariant Attempts(respond, retries, backoffMs, 0).1 == sleeps + Attempts(respond, retries, backoffMs, attempt).1
      decreases retries - attempt
    {
      var response := respond(attempt);
      if IsOk(response.status) {
        assert Attempts(respond, retries, backoffMs, attempt) == (Fetched(attempt, response.body), []);
        assert sleeps + [] == sleeps;
        return Fetched(attempt, response.body), sleeps;
      }
      if attempt < retries && (response.status == 429 || response.status >= 500) {
        ghost var rest := Attempts(respond, retries, backoffMs, attempt + 1);
        assert Attempts(respond, retries, backoffMs, attempt) == (rest.0, [backoffMs * (attempt + 1)] + rest.1);
        assert sleeps + ([backoffMs * (attempt + 1)] + rest.1) == (sleeps + [backoffMs * (attempt + 1)]) + rest.1;
        sleeps := sleeps + [backoffMs * (attempt + 1)];
        attempt := attempt + 1;
        continue;
      }
      assert Attempts(respond, retries, backoffMs, attempt) == (HttpFailure(ErrorMessage(response)), []);
      assert sleeps + [] == sleeps;
      return HttpFailure(ErrorMessage(response)), sleeps;
    }
  }

  /** The back-off grows linearly, at most `retries` delays are slept, a success
      is the first acceptable response, and a failure is a response that is neither
      acceptable nor retried. */
  lemma {:induction false} AttemptsProps(respond: nat -> Response, retries: nat, backoffMs: nat, attempt: nat)
    requires attempt <= retries
    ensures var (o, sleeps) := Attempts(respond, retries, backoffMs, attempt);
      && |sleeps| <= retries - attempt
      && (forall k :: 0 <= k < |sleeps| ==> sleeps[k] == backoffMs * (attempt + k + 1))
      && (o.Fetched? ==> o.attempt == attempt + |sleeps| && o.attempt <= retries
                         && IsOk(respond(o.attempt).status) && o.body == respond(o.attempt).body)
      && (o.HttpFailure? ==> var last := respond(attempt + |sleeps|);
                             !IsOk(last.status) && !ShouldRetry(attempt + |sleeps|, retries, last.status)
                             && o.message == ErrorMessage(last))
      && (forall k :: attempt <= k < attempt + |sleeps| ==>
            !IsOk(respond(k).status) && ShouldRetry(k, retries, respond(k).status))
    decreases retries - attempt
  {
    var r := respond(attempt);
    if !IsOk(r.status) && ShouldRetry(attempt, retries, r.status) {
      AttemptsProps(respond, retries, backoffMs, attempt + 1);
    }
  }

  /** Two 503 responses followed by a 200 succeed on the third attempt after
      sleeping 1200 ms and then 2400 ms, with the default budget of two retries
      and the default back-off. */
  lemma TwoServiceUnavailableThenOk(respond: nat -> Response, body: string)
    requires respond(0).status == 503 && respond(1).status == 503 && respond(2) == Response(200, body)
    ensures Attempts(respond, 2, 1200, 0) == (Fetched(2, body), [1200, 2400])
  {
    assert Attempts(respond, 2, 1200, 2) == (Fetched(2, body), []);
    assert !IsOk(respond(1).status) && ShouldRetry(1, 2, respond(1).status);
    assert Attempts(respond, 2, 1200, 1).0 == Fetched(2, body);
    assert Attempts(respond, 2, 1200, 1).1 == [2400];
    assert !IsOk(respond(0).status) && ShouldRetry(0, 2, respond(0).status);
    assert Attempts(respond, 2, 1200, 0).1 == [1200] + [2400] == [1200, 2400];
    assert Attempts(respond, 2, 1200, 0).0 == Fetched(2, body);
  }
}
