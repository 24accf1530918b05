/**
  Model of the server's integrity store (server/src/app.ts): the input
  sanitiser, the validation of a POST body, the process-wide `database`
  record with its append-only `versions` history, and the GET reads.

  SHA-256 (server/utilities/utils.ts) is not modelled: the store is handed a
  `digest` function when it is created, and every property below holds for
  any such function.
*/
module Server {
  import opened Wrappers
  import opened JsString

  /** One `{ data, hash }` pair, as stored in `versions` and as returned by GET. */
  datatype Record = Record(data: string, hash: string)

  /** The `data` field of a POST body: a JSON string, or anything else
      (a number, an object, `null`, a missing field). */
  datatype Input = Str(value: string) | NotAString

  /** What the POST handler answers: 200, or 400 with an `error` message. */
  datatype Response = Ok | BadRequest(error: string)

  const MaxLength: nat := 100
  const EmptyError := "Invalid data: must be a non-empty string"
  const TooLongError := "Invalid data: must be less than 100 characters"

  // ---------------------------------------------------------------------
  // sanitizeInput: remove every character outside [a-zA-Z0-9\s], then trim
  // ---------------------------------------------------------------------

  predicate IsAsciiAlnum(c: char) {
    ('a' <= c <= 'z') || ('A' <= c <= 'Z') || ('0' <= c <= '9')
  }

  /** The character class `[a-zA-Z0-9\s]`. */
  predicate IsAllowed(c: char) {
    IsAsciiAlnum(c) || IsWhitespace(c)
  }

  /** The global replace: every character outside the class is removed. */
  function StripDisallowed(s: string): (r: string)
    ensures |r| <= |s|
    ensures forall i :: 0 <= i < |r| ==> IsAllowed(r[i])
  {
    if s == [] then []
    else (if IsAllowed(s[0]) then [s[0]] else []) + StripDisallowed(s[1..])
  }

  /** `sanitizeInput`. */
  function Sanitize(s: string): string {
    Trim(StripDisallowed(s))
  }

  /** What `sanitizeInput` returns holds ASCII letters, ASCII digits and
      whitespace only, has whitespace at neither end, and is no longer than
      its input. */
  lemma SanitizeOutput(s: string)
    ensures |Sanitize(s)| <= |s|
    ensures forall i :: 0 <= i < |Sanitize(s)| ==> IsAllowed(Sanitize(s)[i])
    ensures Sanitize(s) == [] || (!IsWhitespace(Sanitize(s)[0]) && !IsWhitespace(Sanitize(s)[|Sanitize(s)| - 1]))
  {
    var t := StripDisallowed(s);
    var lo, hi := TrimSlice(t);
    forall i | 0 <= i < |Sanitize(s)| ensures IsAllowed(Sanitize(s)[i]) {
      assert Sanitize(s)[i] == t[lo + i];
    }
  }

  /** True when `idx` lists strictly increasing positions of `s` that hold
      the characters of `t` one by one. */
  ghost predicate PicksOut(idx: seq<nat>, t: string, s: string) {
    && |idx| == |t|
    && (forall k :: 0 <= k < |idx| ==> idx[k] < |s| && t[k] == s[idx[k]])
    && (forall j, k :: 0 <= j < k < |idx| ==> idx[j] < idx[k])
  }

  /** The result of the replace is an order-preserving subsequence of `s`:
      each of its characters sits at a later position of `s` than the one
      before it. */
  lemma {:induction false} StripIndices(s: string) returns (idx: seq<nat>)
    ensures PicksOut(idx, StripDisallowed(s), s)
  {
    if s == [] {
      idx := [];
    } else {
      var rest := StripIndices(s[1..]);
      var shifted := ShiftPicksOut(rest, StripDisallowed(s[1..]), s);
      if IsAllowed(s[0]) {
        idx := [0] + shifted;
        assert StripDisallowed(s) == [s[0]] + StripDisallowed(s[1..]);
        forall k | 0 < k < |idx| ensures idx[k] == shifted[k - 1] { }
      } else {
        idx := shifted;
      }
    }
  }

  /** Positions in `s[1..]` are positions in `s`, one further on. */
  lemma ShiftPicksOut(idx: seq<nat>, t: string, s: string) returns (shifted: seq<nat>)
    requires s != [] && PicksOut(idx, t, s[1..])
    ensures PicksOut(shifted, t, s)
    ensures forall k :: 0 <= k < |shifted| ==> shifted[k] >= 1
  {
    shifted := seq(|idx|, k requires 0 <= k < |idx| => idx[k] + 1);
    forall k | 0 <= k < |shifted| ensures t[k] == s[shifted[k]] {
      assert s[1..][idx[k]] == s[idx[k] + 1];
    }
  }

  lemma SlicePicksOut(idx: seq<nat>, t: string, s: string, lo: nat, hi: nat)
    requires PicksOut(idx, t, s) && lo <= hi <= |t|
    ensures PicksOut(idx[lo..hi], t[lo..hi], s)
  {
    var sub := idx[lo..hi];
    forall k | 0 <= k < |sub| ensures sub[k] < |s| && t[lo..hi][k] == s[sub[k]] {
      assert sub[k] == idx[lo + k];
    }
    forall j, k | 0 <= j < k < |sub| ensures sub[j] < sub[k] {
      assert sub[j] == idx[lo + j] && sub[k] == idx[lo + k];
    }
  }

  /** `sanitizeInput(s)` is an order-preserving subsequence of `s`: the
      returned indices are strictly increasing positions of `s` holding the
      result's characters one by one. */
  lemma SanitizeSubsequence(s: string) returns (idx: seq<nat>)
    ensures |idx| == |Sanitize(s)| <= |s|
    ensures forall k :: 0 <= k < |idx| ==> idx[k] < |s| && Sanitize(s)[k] == s[idx[k]]
    ensures forall j, k :: 0 <= j < k < |idx| ==> idx[j] < idx[k]
  {
    var t := StripDisallowed(s);
    var all := StripIndices(s);
    var lo, hi := TrimSlice(t);
    SlicePicksOut(all, t, s, lo, hi);
    idx := all[lo..hi];
    assert PicksOut(idx, Sanitize(s), s);
  }

  /** Stripping a string that is already inside the class changes nothing. */
  lemma {:induction false} StripAllowedIdentity(s: string)
    requires forall i :: 0 <= i < |s| ==> IsAllowed(s[i])
    ensures StripDisallowed(s) == s
  {
    if s != [] {
      StripAllowedIdentity(s[1..]);
    }
  }

  /** `sanitizeInput` is idempotent. */
  lemma SanitizeIdempotent(s: string)
    ensures Sanitize(Sanitize(s)) == Sanitize(s)
  {
    var t := Sanitize(s);
    SanitizeOutput(s);
    StripAllowedIdentity(t);
    assert StripDisallowed(t) == t;
    TrimNoEdgeWhitespace(t);
    assert Trim(t) == t;
  }

  /** The replace drops no allowed character and keeps none of the others. */
  lemma {:induction false} StripCounts(s: string, c: char)
    ensures multiset(StripDisallowed(s))[c] == if IsAllowed(c) then multiset(s)[c] else 0
  {
    if s != [] {
      StripCounts(s[1..], c);
      assert s == [s[0]] + s[1..];
    }
  }

  lemma WhitespaceHasNo(w: string, c: char)
    requires AllWhitespace(w) && !IsWhitespace(c)
    ensures multiset(w)[c] == 0
  {
  }

  lemma SliceCount(t: string, lo: nat, hi: nat, c: char)
    requires lo <= hi <= |t|
    ensures multiset(t)[c] == multiset(t[..lo])[c] + multiset(t[lo..hi])[c] + multiset(t[hi..])[c]
  {
    assert t == t[..lo] + t[lo..hi] + t[hi..];
  }

  /** No letter or digit is lost: every ASCII letter and digit occurs in
      `sanitizeInput(s)` exactly as often as in `s`. */
  lemma SanitizeKeepsAlnum(s: string, c: char)
    requires IsAsciiAlnum(c)
    ensures multiset(Sanitize(s))[c] == multiset(s)[c]
  {
    var t := StripDisallowed(s);
    var lo, hi := TrimSlice(t);
    calc {
      multiset(s)[c];
      { StripCounts(s, c); }
      multiset(t)[c];
      { SliceCount(t, lo, hi, c); }
      multiset(t[..lo])[c] + multiset(t[lo..hi])[c] + multiset(t[hi..])[c];
      { WhitespaceHasNo(t[..lo], c); WhitespaceHasNo(t[hi..], c); }
      multiset(Sanitize(s))[c];
    }
  }

  // ---------------------------------------------------------------------
  // Validation of the POST body (checked on the raw, unsanitised input)
  // ---------------------------------------------------------------------

  /** The error the POST handler answers with, or None when it accepts. */
  function Check(body: Input): Option<string> {
    if !body.Str? || Trim(body.value) == "" then Some(EmptyError)
    else if JsLength(body.value) > MaxLength then Some(TooLongError)
    else None
  }

  /** A body is accepted exactly when it is a string that is not all
      whitespace and at most 100 code units long; a non-string or blank
      body is refused as empty before the length is looked at; only a
      non-blank string that is too long is refused as too long. */
  lemma CheckSpec(body: Input)
    ensures Check(body).None? <==>
      body.Str? && !AllWhitespace(body.value) && JsLength(body.value) <= MaxLength
    ensures Check(body) == Some(EmptyError) <==> body.NotAString? || AllWhitespace(body.value)
    ensures Check(body) == Some(TooLongError) <==>
      body.Str? && !AllWhitespace(body.value) && JsLength(body.value) > MaxLength
  {
    if body.Str? {
      TrimEmptyIff(body.value);
    }
  }

  /** Both checks run on the raw input. A run of "!" is not blank, so up to
      and including a hundred of them are accepted although they sanitise
      to the empty string, which is then what gets stored; a hundred and
      one are refused as too long although sanitising would leave nothing. */
  lemma PunctuationOnlyInput(s: string)
    requires forall i :: 0 <= i < |s| ==> s[i] == '!'
    ensures Sanitize(s) == ""
    ensures 0 < |s| <= 100 ==> Check(Str(s)) == None
    ensures |s| > 100 ==> Check(Str(s)) == Some(TooLongError)
  {
    JsLengthBmp(s);
    assert !IsWhitespace('!');
    NothingAllowedStripsToEmpty(s);
    if |s| > 0 {
      assert !IsWhitespace(s[0]);
      CheckSpec(Str(s));
    }
  }

  lemma {:induction false} NothingAllowedStripsToEmpty(s: string)
    requires forall i :: 0 <= i < |s| ==> !IsAllowed(s[i])
    ensures StripDisallowed(s) == ""
  {
    if s != [] {
      NothingAllowedStripsToEmpty(s[1..]);
    }
  }

  // ---------------------------------------------------------------------
  // The database: current record and append-only history
  // ---------------------------------------------------------------------

  /** The value of the process-wide `database` object. */
  datatype StoreState = StoreState(data: string, hash: string, versions: seq<Record>)

  /** The state at process start. */
  const Initial := StoreState("", "", [])

  /** The store's invariant: every history entry carries the digest of its
      text; with at least one write the newest entry is the current record,
      and before any write the current record is the empty initial one. */
  predicate Consistent(digest: string -> string, st: StoreState) {
    && (forall i :: 0 <= i < |st.versions| ==> st.versions[i].hash == digest(st.versions[i].data))
    && if st.versions == [] then st.data == "" && st.hash == ""
       else st.versions[|st.versions| - 1] == Record(st.data, st.hash)
  }

  /** The effect of one POST on the database. A rejected body changes
      nothing; an accepted one replaces the current record with the
      sanitised text and its digest and appends exactly that record, keeping
      every earlier entry. */
  function Step(digest: string -> string, st: StoreState, body: Input): (r: StoreState)
    ensures Check(body).Some? ==> r == st
    ensures Check(body).None? ==>
      && |r.versions| == |st.versions| + 1
      && r.versions[..|st.versions|] == st.versions
      && r.versions[|st.versions|] == Record(r.data, r.hash)
      && r.data == Sanitize(body.value) && r.hash == digest(r.data)
  {
    if Check(body).Some? then st
    else
      var text := Sanitize(body.value);
      StoreState(text, digest(text), st.versions + [Record(text, digest(text))])
  }

  /** A run of POST requests, handled one after the other. */
  function Run(digest: string -> string, st: StoreState, bodies: seq<Input>): StoreState
    decreases |bodies|
  {
    if bodies == [] then st else Run(digest, Step(digest, st, bodies[0]), bodies[1..])
  }

  /** The sanitised texts of the accepted bodies, in request order: an
      independent description of what the history should record. */
  function AcceptedTexts(bodies: seq<Input>): seq<string> {
    if bodies == [] then []
    else (if Check(bodies[0]).None? then [Sanitize(bodies[0].value)] else [])
         + AcceptedTexts(bodies[1..])
  }

  /** The record the store keeps for each text. */
  function Records(digest: string -> string, texts: seq<string>): (r: seq<Record>)
    ensures |r| == |texts|
  {
    if texts == [] then [] else [Record(texts[0], digest(texts[0]))] + Records(digest, texts[1..])
  }

  /** The i-th record is the i-th text with its digest. */
  lemma {:induction false} RecordsAt(digest: string -> string, texts: seq<string>, i: nat)
    requires i < |texts|
    ensures Records(digest, texts)[i] == Record(texts[i], digest(texts[i]))
  {
    if i > 0 {
      RecordsAt(digest, texts[1..], i - 1);
    }
  }

  /** The history after a run is the history before it followed by one
      record per accepted body, in request order and with its digest. */
  lemma {:induction false} RunHistory(digest: string -> string, st: StoreState, bodies: seq<Input>)
    ensures Run(digest, st, bodies).versions == st.versions + Records(digest, AcceptedTexts(bodies))
    decreases |bodies|
  {
    if bodies == [] {
      assert st.versions + [] == st.versions;
    } else {
      RunHistory(digest, Step(digest, st, bodies[0]), bodies[1..]);
      HistoryStep(digest, st, bodies);
    }
  }

  /** One step of RunHistory: the first request's record (if any) comes
      before the records of the remaining ones. */
  lemma HistoryStep(digest: string -> string, st: StoreState, bodies: seq<Input>)
    requires bodies != []
    ensures Step(digest, st, bodies[0]).versions + Records(digest, AcceptedTexts(bodies[1..]))
         == st.versions + Records(digest, AcceptedTexts(bodies))
  {
    if Check(bodies[0]).None? {
      HistoryStepAccepted(digest, st, bodies);
    } else {
      assert AcceptedTexts(bodies) == AcceptedTexts(bodies[1..]);
    }
  }

  lemma HistoryStepAccepted(digest: string -> string, st: StoreState, bodies: seq<Input>)
    requires bodies != [] && Check(bodies[0]).None?
    ensures Step(digest, st, bodies[0]).versions + Records(digest, AcceptedTexts(bodies[1..]))
         == st.versions + Records(digest, AcceptedTexts(bodies))
  {
    var rest := AcceptedTexts(bodies[1..]);
    var t := Sanitize(bodies[0].value);
    var rec := Record(t, digest(t));
    var after := Step(digest, st, bodies[0]).versions;
    var tail := Records(digest, rest);
    var all := Records(digest, AcceptedTexts(bodies));
    assert after == st.versions + [rec] by {
      StepAccepted(digest, st, bodies[0]);
    }
    assert all == [rec] + tail by {
      AcceptedCons(bodies);
      RecordsCons(digest, t, rest);
    }
    AppendShape(st.versions, rec, tail, after, all);
  }

  lemma AppendShape(front: seq<Record>, rec: Record, tail: seq<Record>, a: seq<Record>, b: seq<Record>)
    requires a == front + [rec] && b == [rec] + tail
    ensures a + tail == front + b
  {
  }

  lemma AcceptedCons(bodies: seq<Input>)
    requires bodies != [] && Check(bodies[0]).None?
    ensures AcceptedTexts(bodies) == [Sanitize(bodies[0].value)] + AcceptedTexts(bodies[1..])
  {
  }

  lemma StepAccepted(digest: string -> string, st: StoreState, body: Input)
    requires Check(body).None?
    ensures Step(digest, st, body).versions
         == st.versions + [Record(Sanitize(body.value), digest(Sanitize(body.value)))]
  {
  }

  lemma RecordsCons(digest: string -> string, t: string, rest: seq<string>)
    ensures Records(digest, [t] + rest) == [Record(t, digest(t))] + Records(digest, rest)
  {
    assert ([t] + rest)[1..] == rest;
    assert ([t] + rest)[0] == t;
  }

  /** Every POST keeps the invariant. */
  lemma StepConsistent(digest: string -> string, st: StoreState, body: Input)
    requires Consistent(digest, st)
    ensures Consistent(digest, Step(digest, st, body))
  {
    if Check(body).None? {
      var r := Step(digest, st, body);
      forall i | 0 <= i < |r.versions| ensures r.versions[i].hash == digest(r.versions[i].data) {
        if i < |st.versions| {
          assert r.versions[i] == r.versions[..|st.versions|][i];
        }
      }
    }
  }

  /** Any run of POSTs from a consistent state ends in a consistent state. */
  lemma {:induction false} RunConsistent(digest: string -> string, st: StoreState, bodies: seq<Input>)
    requires Consistent(digest, st)
    ensures Consistent(digest, Run(digest, st, bodies))
    decreases |bodies|
  {
    if bodies != [] {
      StepConsistent(digest, st, bodies[0]);
      RunConsistent(digest, Step(digest, st, bodies[0]), bodies[1..]);
    }
  }

  /** From process start, after n accepted writes the history has exactly n
      entries, each the sanitised text of the i-th accepted body with its
      digest; the newest entry is the current record, and with no accepted
      write the current record is still the empty initial one. */
  lemma FromInitial(digest: string -> string, bodies: seq<Input>)
    ensures var st := Run(digest, Initial, bodies);
      && st.versions == Records(digest, AcceptedTexts(bodies))
      && |st.versions| == |AcceptedTexts(bodies)|
      && (forall i :: 0 <= i < |st.versions| ==>
            st.versions[i] == Record(AcceptedTexts(bodies)[i], digest(AcceptedTexts(bodies)[i])))
      && (forall i :: 0 <= i < |st.versions| ==> st.versions[i].hash == digest(st.versions[i].data))
      && (if AcceptedTexts(bodies) == [] then st.data == "" && st.hash == ""
          else st.versions[|st.versions| - 1] == Record(st.data, st.hash))
  {
    RunHistory(digest, Initial, bodies);
    assert [] + Records(digest, AcceptedTexts(bodies)) == Records(digest, AcceptedTexts(bodies));
    RunConsistent(digest, Initial, bodies);
    forall i | 0 <= i < |AcceptedTexts(bodies)|
      ensures Records(digest, AcceptedTexts(bodies))[i]
           == Record(AcceptedTexts(bodies)[i], digest(AcceptedTexts(bodies)[i]))
    {
      RecordsAt(digest, AcceptedTexts(bodies), i);
    }
  }

  /** A run split in two is the second half run from where the first ended. */
  lemma {:induction false} RunConcat(digest: string -> string, st: StoreState, xs: seq<Input>, ys: seq<Input>)
    ensures Run(digest, st, xs + ys) == Run(digest, Run(digest, st, xs), ys)
    decreases |xs|
  {
    if xs == [] {
      assert xs + ys == ys;
    } else {
      assert (xs + ys)[0] == xs[0] && (xs + ys)[1..] == xs[1..] + ys;
      RunConcat(digest, Step(digest, st, xs[0]), xs[1..], ys);
    }
  }

  /** The history is append-only: what it held after the first k requests
      is a prefix of what it holds after all of them. */
  lemma AppendOnly(digest: string -> string, st: StoreState, bodies: seq<Input>, k: nat)
    requires k <= |bodies|
    ensures Run(digest, st, bodies[..k]).versions <= Run(digest, st, bodies).versions
  {
    assert bodies == bodies[..k] + bodies[k..];
    RunConcat(digest, st, bodies[..k], bodies[k..]);
    var mid := Run(digest, st, bodies[..k]);
    RunHistory(digest, mid, bodies[k..]);
  }

  /** The store object. `digest` stands for `generateHash`. */
  class Store {
    const digest: string -> string
    var data: string
    var hash: string
    var versions: seq<Record>

    /** The abstract value of the `database` object. */
    function State(): StoreState
      reads this
    {
      StoreState(data, hash, versions)
    }

    ghost predicate Valid()
      reads this
    {
      Consistent(digest, State())
    }

    constructor (digest: string -> string)
      ensures this.digest == digest
      ensures State() == Initial && Valid()
    {
      this.digest := digest;
      data, hash, versions := "", "", [];
    }

    /** GET `/`: the current record; nothing changes. After at least one
        write it carries the digest of its text. */
    method GetCurrent() returns (r: Record)
      requires Valid()
      ensures r == Record(data, hash)
      ensures versions != [] ==> r.hash == digest(r.data) && r == versions[|versions| - 1]
      ensures versions == [] ==> r == Record("", "")
    {
      r := Record(data, hash);
    }

    /** GET `/history`: every version, oldest first; nothing changes. */
    method GetHistory() returns (h: seq<Record>)
      requires Valid()
      ensures h == versions
      ensures forall i :: 0 <= i < |h| ==> h[i].hash == digest(h[i].data)
    {
      h := versions;
    }

    /** POST `/`: validate the raw input, sanitise it, store it with its
        digest and append that record to the history. */
    method Post(body: Input) returns (res: Response)
      requires Valid()
      modifies this
      ensures Valid()
      ensures State() == Step(digest, old(State()), body)
      ensures res == if Check(body).None? then Ok else BadRequest(Check(body).value)
      ensures res.BadRequest? ==> State() == old(State())
      ensures res.Ok? ==>
        && data == Sanitize(body.value) && hash == digest(data)
        && versions == old(versions) + [Record(data, hash)]
    {
      if !body.Str? || Trim(body.value) == "" {
        return BadRequest(EmptyError);
      }
      var newData := body.value;
      if JsLength(newData) > MaxLength {
        return BadRequest(TooLongError);
      }
      newData := Sanitize(newData);
      data := newData;
      hash := digest(newData);
      versions := versions + [Record(data, hash)];
      StepConsistent(digest, old(State()), body);
      res := Ok;
    }
  }
}
