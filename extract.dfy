/** The deterministic part of the extraction script: the port reference block,
    one extraction attempt (fence stripping, JSON parsing, normalisation,
    validation), the bounded retry loop with exponential backoff and its
    all-null fallback, and the per-email batch loop. The completion service is
    replaced by the reply it gives on each attempt. */
module Extract {
  import opened Options
  import opened JsonValue
  import opened PyText
  import opened PyRound
  import opened Schemas

  const MaxRetries: nat := 3
  const InitialBackoff: real := 2.0
  const Fence := "```"

  // ---------------------------------------------------------------------------
  // Port reference

  /** One entry of the port reference file. */
  datatype PortEntry = PortEntry(code: string, name: string)

  /** The codes that occur in `entries`. */
  function Codes(entries: seq<PortEntry>): set<string> {
    if |entries| == 0 then {} else Codes(entries[..|entries| - 1]) + {entries[|entries| - 1].code}
  }

  /** The entries that are the first with their code, in input order; never
      more of them than entries. */
  function FirstOccurrences(entries: seq<PortEntry>): (r: seq<PortEntry>)
    ensures |r| <= |entries|
  {
    if |entries| == 0 then []
    else
      var init := entries[..|entries| - 1];
      var last := entries[|entries| - 1];
      FirstOccurrences(init) + (if last.code in Codes(init) then [] else [last])
  }

  /** The position of the first entry with `code`, or `|entries|` if there is none. */
  function FirstPosition(entries: seq<PortEntry>, code: string): (n: nat)
    ensures n <= |entries|
    ensures n < |entries| ==> entries[n].code == code
    ensures forall j :: 0 <= j < n ==> entries[j].code != code
    ensures n == |entries| <==> code !in Codes(entries)
  {
    if |entries| == 0 then 0
    else
      var init := entries[..|entries| - 1];
      var n := FirstPosition(init, code);
      assert forall j :: 0 <= j < |init| ==> init[j] == entries[j];
      if n < |init| then n
      else if entries[|entries| - 1].code == code then |init|
      else |entries|
  }

  /** One line of the reference block: two spaces, the code, an arrow, the name. */
  function ReferenceLine(e: PortEntry): string {
    "  " + e.code + " -> " + e.name
  }

  /** The rendered lines of `entries`, one per entry in order, as appended to
      `lines` in the reference loop. */
  function ReferenceLines(entries: seq<PortEntry>): (r: seq<string>)
    ensures |r| == |entries|
    ensures forall k :: 0 <= k < |entries| ==> r[k] == ReferenceLine(entries[k])
  {
    seq(|entries|, k requires 0 <= k < |entries| => ReferenceLine(entries[k]))
  }

  /** `get_port_reference_json` after loading the file: one line per code, for
      the first entry carrying it, joined by newlines. */
  method PortReference(entries: seq<PortEntry>) returns (text: string)
    ensures text == Join(ReferenceLines(FirstOccurrences(entries)))
  {
    var seen: set<string> := {};
    var lines: seq<string> := [];
    for i := 0 to |entries|
      invariant seen == Codes(entries[..i])
      invariant lines == ReferenceLines(FirstOccurrences(entries[..i]))
    {
      var code := entries[i].code;
      assert entries[..i + 1][..i] == entries[..i];
      assert Codes(entries[..i + 1]) == Codes(entries[..i]) + {code};
      if code !in seen {
        seen := seen + {code};
        lines := lines + [ReferenceLine(entries[i])];
      }
    }
    assert entries[..|entries|] == entries;
    text := Join(lines);
  }

  /** Every code of the input has a line of its own, and no line has a code
      the input lacks. */
  lemma {:induction false} FirstOccurrencesCoverCodes(entries: seq<PortEntry>)
    ensures Codes(FirstOccurrences(entries)) == Codes(entries)
  {
    if |entries| > 0 {
      var init := entries[..|entries| - 1];
      var last := entries[|entries| - 1];
      FirstOccurrencesCoverCodes(init);
      var r0 := FirstOccurrences(init);
      if last.code !in Codes(init) {
        var r := r0 + [last];
        assert r[..|r| - 1] == r0;
        assert Codes(r) == Codes(r0) + {last.code};
      } else {
        assert r0 + [] == r0;
      }
    }
  }

  /** Each code has one line only. */
  lemma {:induction false} FirstOccurrencesDistinct(entries: seq<PortEntry>)
    ensures var r := FirstOccurrences(entries);
      forall k, l :: 0 <= k < l < |r| ==> r[k].code != r[l].code
  {
    if |entries| > 0 {
      var init := entries[..|entries| - 1];
      var last := entries[|entries| - 1];
      FirstOccurrencesDistinct(init);
      FirstOccurrencesCoverCodes(init);
      var r0 := FirstOccurrences(init);
      forall k | 0 <= k < |r0| ensures r0[k].code in Codes(r0) {
        assert FirstPosition(r0, r0[k].code) <= k;
      }
    }
  }

  /** Each line comes from the first entry with its code, so a later entry with
      the same code and another name is never shown. */
  lemma {:induction false} FirstOccurrencesKeepFirstName(entries: seq<PortEntry>)
    ensures var r := FirstOccurrences(entries);
      forall k :: 0 <= k < |r| ==>
        FirstPosition(entries, r[k].code) < |entries| && r[k] == entries[FirstPosition(entries, r[k].code)]
  {
    if |entries| > 0 {
      var init := entries[..|entries| - 1];
      var last := entries[|entries| - 1];
      FirstOccurrencesKeepFirstName(init);
      FirstOccurrencesCoverCodes(init);
      var r0 := FirstOccurrences(init);
      forall k | 0 <= k < |r0| ensures r0[k].code in Codes(init) {
        assert FirstPosition(r0, r0[k].code) <= k;
      }
      if last.code !in Codes(init) {
        assert FirstPosition(entries, last.code) == |init|;
      }
    }
  }

  /** The lines follow the order in which the codes first appear. */
  lemma {:induction false} FirstOccurrencesInOrder(entries: seq<PortEntry>)
    ensures var r := FirstOccurrences(entries);
      forall k, l :: 0 <= k < l < |r| ==>
        FirstPosition(entries, r[k].code) < FirstPosition(entries, r[l].code)
  {
    if |entries| > 0 {
      var init := entries[..|entries| - 1];
      var last := entries[|entries| - 1];
      FirstOccurrencesInOrder(init);
      FirstOccurrencesCoverCodes(init);
      var r0 := FirstOccurrences(init);
      forall k | 0 <= k < |r0| ensures r0[k].code in Codes(init) && FirstPosition(init, r0[k].code) < |init| {
        assert FirstPosition(r0, r0[k].code) <= k;
      }
      if last.code !in Codes(init) {
        assert FirstPosition(entries, last.code) == |init|;
      }
    }
  }

  lemma LineHasNoNewline(e: PortEntry)
    requires '\n' !in e.code && '\n' !in e.name
    ensures '\n' !in ReferenceLine(e)
  {
  }

  /** When no code or name holds a newline, the reference block splits back
      into one line per distinct code. */
  lemma OneLinePerCode(entries: seq<PortEntry>)
    requires |entries| > 0
    requires forall i :: 0 <= i < |entries| ==> '\n' !in entries[i].code && '\n' !in entries[i].name
    ensures Split(Join(ReferenceLines(FirstOccurrences(entries)))) == ReferenceLines(FirstOccurrences(entries))
  {
    FirstOccurrencesKeepFirstName(entries);
    FirstOccurrencesCoverCodes(entries);
    var r := FirstOccurrences(entries);
    assert FirstPosition(entries, entries[0].code) == 0;
    var lines := ReferenceLines(r);
    forall k | 0 <= k < |lines| ensures '\n' !in lines[k] {
      var i := FirstPosition(entries, r[k].code);
      assert r[k] == entries[i];
      LineHasNoNewline(r[k]);
    }
    SplitJoin(lines);
  }

  // ---------------------------------------------------------------------------
  // One extraction attempt

  /** What the completion service did on one attempt: it raised (or gave no
      message content), or it replied with the given text. */
  datatype Reply = CallFailed | Replied(content: string)

  /** The result of `json.loads`: a dictionary, or some other JSON value. */
  datatype Parsed = Object(fields: Record) | NotObject(v: Value)

  /** Library behaviour the model takes as given: `json.loads` (`None` when it
      raises) and `float` applied to a string (`None` when it raises). */
  datatype Library = Library(loads: string -> Option<Parsed>, parseFloat: string -> Option<real>)

  /** `text` with a surrounding markdown code fence removed: when it starts with
      a fence, its first line goes, and its last line goes if it is a fence. */
  function StripFence(text: string): (r: string)
    ensures !StartsWith(text, Fence) ==> r == text
  {
    if !StartsWith(text, Fence) then text
    else
      var lines := Split(text);
      var lines := if StartsWith(lines[0], Fence) then lines[1..] else lines;
      var lines := if |lines| > 0 && Strip(lines[|lines| - 1]) == Fence then lines[..|lines| - 1] else lines;
      Join(lines)
  }

  /** The first piece of `a + b` begins with `a` when `a` holds no newline. */
  lemma {:induction false} SplitFirstPiece(a: string, b: string)
    requires '\n' !in a
    ensures Split(a + b)[0] == a + Split(b)[0]
  {
    if |a| > 0 {
      assert (a + b)[0] == a[0];
      assert (a + b)[1..] == a[1..] + b;
      assert '\n' !in a[1..] by {
        forall k | 0 <= k < |a[1..]| ensures a[1..][k] != '\n' {
          assert a[1..][k] == a[k + 1];
        }
      }
      SplitFirstPiece(a[1..], b);
    } else {
      assert a + b == b;
    }
  }

  /** A text that starts with a fence also has a first line that starts with
      one, so the inner check of the fence stripping always holds and the
      first line is always dropped. */
  lemma FenceLineIsFirst(text: string)
    requires StartsWith(text, Fence)
    ensures StartsWith(Split(text)[0], Fence)
  {
    assert text == Fence + text[3..];
    SplitFirstPiece(Fence, text[3..]);
  }

  lemma StripFenceLine()
    ensures Strip(Fence) == Fence
  {
    assert LeadingSpace(Fence) == 0;
    assert Fence[0..] == Fence;
    assert TrailingSpace(Fence) == 0;
  }

  /** On fenced text the first line always goes, since it starts with the fence. */
  lemma StripFenceFenced(text: string)
    requires StartsWith(text, Fence)
    ensures var lines := Split(text)[1..];
      StripFence(text) == if |lines| > 0 && Strip(lines[|lines| - 1]) == Fence then Join(lines[..|lines| - 1]) else Join(lines)
  {
    FenceLineIsFirst(text);
  }

  /** A body wrapped in an opening fence line (with any info string) and a
      closing fence line comes back out unchanged. */
  lemma FencedBodyRoundTrip(info: string, body: string)
    requires '\n' !in info
    ensures StripFence(Fence + info + "\n" + body + "\n" + Fence) == body
  {
    var first := Fence + info;
    var text := Fence + info + "\n" + body + "\n" + Fence;
    assert text == first + "\n" + (body + "\n" + Fence);
    assert '\n' !in first;
    SplitSingleLine(first);
    SplitAppend(first, body + "\n" + Fence);
    SplitSingleLine(Fence);
    SplitAppend(body, Fence);
    assert text[..3] == Fence;
    StripFenceFenced(text);
    var lines := Split(text)[1..];
    assert lines == Split(body) + [Fence];
    StripFenceLine();
    assert lines[..|lines| - 1] == Split(body);
    JoinSplit(body);
  }

  /** A fence that is never closed only loses its opening line. */
  lemma UnclosedFence(info: string, body: string)
    requires '\n' !in info
    requires Strip(Split(body)[|Split(body)| - 1]) != Fence
    ensures StripFence(Fence + info + "\n" + body) == body
  {
    var first := Fence + info;
    var text := Fence + info + "\n" + body;
    assert text == first + "\n" + body;
    SplitSingleLine(first);
    SplitAppend(first, body);
    assert text[..3] == Fence;
    StripFenceFenced(text);
    assert Split(text)[1..] == Split(body);
    JoinSplit(body);
  }

  // ---------------------------------------------------------------------------
  // Normalisation

  /** `float(v)`: booleans and numbers always convert, strings are parsed, and
      null and non-scalar values raise (`None`). */
  function ToFloat(v: Value, lib: Library): (r: Option<real>)
    ensures v.Null? || v.Other? ==> r.None?
    ensures v.Bool? || v.Num? ==> r.Some?
  {
    match v
    case Bool(b) => Some(if b then 1.0 else 0.0)
    case Num(x) => Some(x)
    case Str(s) => lib.parseFloat(s)
    case _ => None
  }

  /** The value under `key` can be normalised: it is absent, null, or converts to a float. */
  predicate Convertible(raw: Record, key: string, lib: Library) {
    key in raw && raw[key] != Null ==> ToFloat(raw[key], lib).Some?
  }

  /** `after[key]` is `before[key]` rounded to two decimals when that was present
      and not null; an absent key stays absent and a null stays null. */
  predicate RoundedOrNull(before: Record, after: Record, key: string, lib: Library) {
    && (key in after <==> key in before)
    && (key in before && before[key] == Null ==> after[key] == Null)
    && (key in before && before[key] != Null ==>
          ToFloat(before[key], lib).Some? && after[key] == Num(Round2(ToFloat(before[key], lib).value)))
  }

  /** Round one numeric field in place, if it is present and not null. */
  function RoundField(raw: Record, key: string, lib: Library): Option<Record> {
    if key in raw && raw[key] != Null then
      var x :- ToFloat(raw[key], lib);
      Some(raw[key := Num(Round2(x))])
    else Some(raw)
  }

  /** The post-parse normalisation: the id is forced to the email's id, weight
      and volume are rounded when present and not null, every other key is left
      alone; it raises (`None`) exactly when weight or volume does not convert. */
  function Normalise(raw: Record, emailId: string, lib: Library): (r: Option<Record>)
    ensures r.Some? <==> Convertible(raw, CargoWeightKey, lib) && Convertible(raw, CargoCbmKey, lib)
    ensures r.Some? ==> IdKey in r.value && r.value[IdKey] == Str(emailId)
    ensures r.Some? ==> r.value.Keys == raw.Keys + {IdKey}
    ensures r.Some? ==> forall k :: k in raw && k != IdKey && k != CargoWeightKey && k != CargoCbmKey ==> r.value[k] == raw[k]
    ensures r.Some? ==> RoundedOrNull(raw, r.value, CargoWeightKey, lib)
                        && RoundedOrNull(raw, r.value, CargoCbmKey, lib)
  {
    var withId := raw[IdKey := Str(emailId)];
    var withWeight :- RoundField(withId, CargoWeightKey, lib);
    RoundField(withWeight, CargoCbmKey, lib)
  }

  /** Normalising an already normalised dictionary changes nothing. */
  lemma NormaliseIdempotent(raw: Record, emailId: string, lib: Library)
    requires Normalise(raw, emailId, lib).Some?
    ensures Normalise(Normalise(raw, emailId, lib).value, emailId, lib) == Normalise(raw, emailId, lib)
  {
    var once := Normalise(raw, emailId, lib).value;
    assert once[IdKey := Str(emailId)] == once;
    RoundedIsFixed(raw, once, CargoWeightKey, lib);
    RoundedIsFixed(raw, once, CargoCbmKey, lib);
  }

  /** A field already rounded from `before` is left alone by rounding again. */
  lemma RoundedIsFixed(before: Record, after: Record, key: string, lib: Library)
    requires RoundedOrNull(before, after, key, lib)
    ensures RoundField(after, key, lib) == Some(after)
  {
    if key in after && after[key] != Null {
      var x := ToFloat(before[key], lib).value;
      Round2Idempotent(x);
      assert ToFloat(after[key], lib) == Some(Round2(x));
      assert after[key := Num(Round2(x))] == after;
    }
  }

  /** One attempt: call, stripped reply, fence removed, parsed, normalised and
      validated. Any of these raising makes the attempt fail (`None`). */
  function Attempt(emailId: string, reply: Reply, lib: Library): (r: Option<Shipment>)
    ensures r.Some? ==> r.value.id == emailId
  {
    match reply
    case CallFailed => None
    case Replied(content) =>
      match lib.loads(StripFence(Strip(content)))
      case Some(Object(raw)) =>
        var normal :- Normalise(raw, emailId, lib);
        Validate(normal)
      case _ => None
  }

  /** A successful attempt carries weight and volume rounded to two decimals,
      taken from the reply, and null exactly when the reply left them out or
      gave null. */
  lemma AttemptRoundsNumbers(emailId: string, content: string, raw: Record, lib: Library)
    requires lib.loads(StripFence(Strip(content))) == Some(Object(raw))
    requires Attempt(emailId, Replied(content), lib).Some?
    ensures var s := Attempt(emailId, Replied(content), lib).value;
      && (s.cargoWeightKg.None? <==> CargoWeightKey !in raw || raw[CargoWeightKey] == Null)
      && (s.cargoWeightKg.Some? ==> s.cargoWeightKg.value == Round2(ToFloat(raw[CargoWeightKey], lib).value))
      && (s.cargoCbm.None? <==> CargoCbmKey !in raw || raw[CargoCbmKey] == Null)
      && (s.cargoCbm.Some? ==> s.cargoCbm.value == Round2(ToFloat(raw[CargoCbmKey], lib).value))
  {
    var normal := Normalise(raw, emailId, lib).value;
    var s := Attempt(emailId, Replied(content), lib).value;
    assert Validate(normal) == Some(s);
    ValidateReadsFields(normal, s);
  }

  // ---------------------------------------------------------------------------
  // Retry loop and fallback

  /** The record returned when every attempt failed: the email's id and every
      other field at its schema default, i.e. what validating a dictionary
      holding only the id gives. */
  function Fallback(emailId: string): (r: Shipment)
    ensures Validate(map[IdKey := Str(emailId)]) == Some(r)
  {
    Shipment(emailId, None, None, None, None, None, None, None, None, false)
  }

  /** The outcome of the first successful attempt from attempt `k` on. */
  function FirstSuccess(emailId: string, replies: seq<Reply>, lib: Library, k: nat): (r: Option<Shipment>)
    requires k <= |replies|
    ensures r.Some? ==> r.value.id == emailId
    decreases |replies| - k
  {
    if k == |replies| then None
    else match Attempt(emailId, replies[k], lib)
      case Some(s) => Some(s)
      case None => FirstSuccess(emailId, replies, lib, k + 1)
  }

  /** Unfolding `FirstSuccess` by one attempt. */
  lemma FirstSuccessStep(emailId: string, replies: seq<Reply>, lib: Library, k: nat)
    requires k < |replies|
    ensures Attempt(emailId, replies[k], lib).None? ==> FirstSuccess(emailId, replies, lib, k) == FirstSuccess(emailId, replies, lib, k + 1)
    ensures Attempt(emailId, replies[k], lib).Some? ==> FirstSuccess(emailId, replies, lib, k) == Attempt(emailId, replies[k], lib)
  {
  }

  /** What `extract_one` returns for the given replies to its attempts. */
  function Extracted(emailId: string, replies: seq<Reply>, lib: Library): (r: Shipment)
    requires |replies| == MaxRetries
    ensures r.id == emailId
    ensures FirstSuccess(emailId, replies, lib, 0).None? ==> r == Fallback(emailId)
  {
    FirstSuccess(emailId, replies, lib, 0).GetOr(Fallback(emailId))
  }

  function Pow2(n: nat): real {
    if n == 0 then 1.0 else 2.0 * Pow2(n - 1)
  }

  /** The delay slept after the `j`-th failed attempt: 2, doubling each time. */
  function Backoff(j: nat): real {
    InitialBackoff * Pow2(j)
  }

  /** The first `n` backoff delays, in the order they are slept. */
  function Delays(n: nat): (r: seq<real>)
    ensures |r| == n
    ensures forall j :: 0 <= j < n ==> r[j] == Backoff(j)
  {
    if n == 0 then [] else Delays(n - 1) + [Backoff(n - 1)]
  }

  /** With three attempts the only delays ever slept are 2 and then 4. */
  lemma DelaysAreTwoThenFour()
    ensures Delays(MaxRetries - 1) == [2.0, 4.0]
  {
  }

  /** The input email; only its id matters outside the prompt. */
  datatype Email = Email(id: string, subject: string, body: string)

  /** `extract_one`: at most three attempts, returning on the first success; a
      sleep of 2, then 4, between consecutive attempts and none after the last;
      the fallback record when all attempts fail. `calls` is the number of
      attempts made and `sleeps` the delays slept, in order. */
  method ExtractOne(email: Email, replies: seq<Reply>, lib: Library)
    returns (rec: Shipment, sleeps: seq<real>, calls: nat)
    requires |replies| == MaxRetries
    ensures 1 <= calls <= MaxRetries
    ensures forall j :: 0 <= j < calls - 1 ==> Attempt(email.id, replies[j], lib).None?
    ensures sleeps == Delays(calls - 1)
    ensures Attempt(email.id, replies[calls - 1], lib).Some? ==> rec == Attempt(email.id, replies[calls - 1], lib).value
    ensures Attempt(email.id, replies[calls - 1], lib).None? ==> calls == MaxRetries && rec == Fallback(email.id)
    ensures rec == Extracted(email.id, replies, lib)
  {
    var emailId := email.id;
    var backoff := InitialBackoff;
    sleeps := [];
    var attempt := 0;
    while attempt < MaxRetries
      invariant 0 <= attempt <= MaxRetries
      invariant forall j :: 0 <= j < attempt ==> Attempt(emailId, replies[j], lib).None?
      invariant sleeps == Delays(if attempt < MaxRetries then attempt else MaxRetries - 1)
      invariant backoff == Backoff(|sleeps|)
      invariant FirstSuccess(emailId, replies, lib, 0) == FirstSuccess(emailId, replies, lib, attempt)
    {
      var outcome := Attempt(emailId, replies[attempt], lib);
      FirstSuccessStep(emailId, replies, lib, attempt);
      if outcome.Some? {
        rec, calls := outcome.value, attempt + 1;
        return;
      }
      if attempt < MaxRetries - 1 {
        sleeps := sleeps + [backoff];
        backoff := backoff * 2.0;
      }
      assert forall j :: 0 <= j < attempt + 1 ==> Attempt(emailId, replies[j], lib).None? by {
        forall j | 0 <= j < attempt + 1 ensures Attempt(emailId, replies[j], lib).None? {
          if j == attempt {
            assert Attempt(emailId, replies[j], lib) == outcome;
          }
        }
      }
      attempt := attempt + 1;
    }
    rec, calls := Fallback(emailId), MaxRetries;
  }

  // ---------------------------------------------------------------------------
  // Batch loop

  /** The per-email loop of `main`: one dumped record per email, in input order,
      each the result of extracting that email. */
  method ExtractAll(emails: seq<Email>, replies: seq<seq<Reply>>, lib: Library)
    returns (results: seq<Record>)
    requires |replies| == |emails|
    requires forall i :: 0 <= i < |replies| ==> |replies[i]| == MaxRetries
    ensures |results| == |emails|
    ensures forall i :: 0 <= i < |emails| ==> results[i] == Dump(Extracted(emails[i].id, replies[i], lib))
    ensures forall i :: 0 <= i < |emails| ==> IdKey in results[i] && results[i][IdKey] == Str(emails[i].id)
  {
    results := [];
    for i := 0 to |emails|
      invariant |results| == i
      invariant forall j :: 0 <= j < i ==> results[j] == Dump(Extracted(emails[j].id, replies[j], lib))
    {
      var extracted, _, _ := ExtractOne(emails[i], replies[i], lib);
      results := results + [Dump(extracted)];
    }
    forall i | 0 <= i < |emails|
      ensures IdKey in results[i] && results[i][IdKey] == Str(emails[i].id)
    {
      DumpKeepsId(Extracted(emails[i].id, replies[i], lib));
    }
  }
}
