/**
 * `HTTPRequest` of the HTTP worker: the success tests of `run` and
 * `fileExists`, the error message both build, and the signals `run` emits.
 * libcurl is not modelled: whether `curl_easy_init` succeeded and what the
 * transfer reported (its `CURLcode`, the response code, the error buffer, the
 * progress ratios the progress handler signalled and the bytes the write
 * handler received) are parameters.
 */
module HttpRequest {
  import opened Util
  import opened Numerals
  import opened UrlEncoding

  /** A `CURLcode`. */
  type CurlCode = int

  /** `CURLE_OK`. */
  const CURLE_OK: CurlCode := 0

  /** The message `run` signals and `fileExists` logs when `curl_easy_init` fails. */
  const INIT_FAILED: string := "failed to initialize cURL context"

  /** `requestSucceeded` in `run`: the transfer went through and the server sent 200 or 206. */
  predicate RunSucceeded(res: CurlCode, responseCode: int)
  {
    res == CURLE_OK && (responseCode == 200 || responseCode == 206)
  }

  /** `requestSucceeded` in `fileExists`: the transfer went through and the server sent 200. */
  predicate FileExistsSucceeded(res: CurlCode, responseCode: int)
  {
    res == CURLE_OK && responseCode == 200
  }

  /** A file `fileExists` finds is one `run` would fetch; a partial-content answer is accepted only by `run`. */
  lemma SuccessTestsCompared(res: CurlCode, responseCode: int)
    ensures FileExistsSucceeded(res, responseCode) ==> RunSucceeded(res, responseCode)
    ensures RunSucceeded(res, responseCode) && !FileExistsSucceeded(res, responseCode) <==> res == CURLE_OK && responseCode == 206
    ensures res != CURLE_OK ==> !RunSucceeded(res, responseCode) && !FileExistsSucceeded(res, responseCode)
  {
  }

  // ---------------------------------------------------------------------------
  // The error message

  /** The character of a decimal digit. */
  function DigitChar(d: nat): (c: char)
    requires d < 10
    ensures '0' <= c <= '9'
  {
    (48 + d) as char
  }

  /** The decimal digits of `n`, as characters, no leading zero. */
  function DecimalDigits(n: nat): (s: string)
    ensures |s| >= 1 && forall i :: 0 <= i < |s| ==> '0' <= s[i] <= '9'
  {
    DigitsRoundTrip(n, 10);
    var ds := Digits(n, 10);
    seq(|ds|, i requires 0 <= i < |ds| => DigitChar(ds[i]))
  }

  /** `std::to_string` of a `long`: a minus sign before the digits of a negative value. */
  function DecimalString(n: int): string
  {
    if n < 0 then "-" + DecimalDigits(-n) else DecimalDigits(n)
  }

  /** Reading a run of decimal digits back (the reference reading of `DecimalString`). */
  function ParseDigits(s: string): Option<nat>
  {
    if |s| >= 1 && (forall i :: 0 <= i < |s| ==> '0' <= s[i] <= '9') && (|s| > 1 ==> s[0] != '0')
    then Some(Value(seq(|s|, i requires 0 <= i < |s| => s[i] as int - 48), 10))
    else None
  }

  /** Reading an optionally negative decimal number back. */
  function ParseDecimal(s: string): Option<int>
  {
    if |s| >= 1 && s[0] == '-' then
      var m := ParseDigits(s[1..]);
      if m.Some? && m.value > 0 then Some(0 - m.value) else None
    else ParseDigits(s)
  }

  lemma DecimalDigitsRoundTrip(n: nat)
    ensures ParseDigits(DecimalDigits(n)) == Some(n)
  {
    DigitsRoundTrip(n, 10);
    var ds := Digits(n, 10);
    var s := DecimalDigits(n);
    assert seq(|s|, i requires 0 <= i < |s| => s[i] as int - 48) == ds;
  }

  /** `std::to_string` is read back as the number it printed. */
  lemma DecimalRoundTrip(n: int)
    ensures ParseDecimal(DecimalString(n)) == Some(n)
  {
    if n < 0 {
      var s := DecimalDigits(-n);
      DecimalDigitsRoundTrip(-n);
      assert ("-" + s)[0] == '-' && ("-" + s)[1..] == s;
      assert ParseDigits(s) == Some(-n);
    } else {
      var s := DecimalDigits(n);
      DecimalDigitsRoundTrip(n);
      assert s[0] != '-';
    }
  }

  /** `std::string(curlErrorBuffer)`: the characters before the first NUL. */
  function CString(buffer: seq<char>): (s: string)
    ensures |s| <= |buffer| && s == buffer[..|s|]
    ensures '\0' !in s
    ensures |s| < |buffer| ==> buffer[|s|] == '\0'
  {
    if buffer == [] || buffer[0] == '\0' then [] else [buffer[0]] + CString(buffer[1..])
  }

  /** The error message of `run` and `fileExists`. */
  function ErrorMessage(responseCode: int, res: CurlCode, errorBuffer: seq<char>): string
  {
    "status: " + DecimalString(responseCode) + (if res != CURLE_OK then ", error: " + CString(errorBuffer) else "")
  }

  /**
   * The message always starts with `status: ` and the response code; the
   * libcurl error text is appended, after `, error: `, exactly when the
   * transfer itself failed; for a transfer that went through, the rest of the
   * message reads back as the response code.
   */
  lemma ErrorMessageFormat(responseCode: int, res: CurlCode, errorBuffer: seq<char>)
    ensures var m := ErrorMessage(responseCode, res, errorBuffer);
      var d := DecimalString(responseCode);
      && |m| >= 8 + |d| && m[..8] == "status: " && m[8..8 + |d|] == d
      && (',' in m <==> res != CURLE_OK)
      && (res != CURLE_OK ==> m[8 + |d|..] == ", error: " + CString(errorBuffer))
      && (res == CURLE_OK ==> ParseDecimal(m[8..]) == Some(responseCode))
  {
    var m := ErrorMessage(responseCode, res, errorBuffer);
    var d := DecimalString(responseCode);
    var tail := if res != CURLE_OK then ", error: " + CString(errorBuffer) else "";
    assert m == "status: " + d + tail;
    assert m[..8] == "status: " && m[8..8 + |d|] == d && m[8 + |d|..] == tail;
    assert forall i :: 0 <= i < |d| ==> d[i] != ',';
    if res != CURLE_OK {
      assert m[8 + |d|] == ',';
    } else {
      assert m[8..] == d;
      DecimalRoundTrip(responseCode);
    }
  }

  /** The message for a 404 received by `run` with the transfer itself fine. */
  lemma NotFoundMessage(errorBuffer: seq<char>)
    ensures ErrorMessage(404, CURLE_OK, errorBuffer) == "status: 404"
  {
    DivMod(404, 0, 0, 10);
    DivMod(40, 0, 0, 10);
    assert Digits(404, 10) == [4, 0, 4];
  }

  // ---------------------------------------------------------------------------
  // `run`

  /** The signals of a request: `progress`, `error` and `complete`. */
  datatype RequestEvent =
    | Progress(ratio: real)
    | Error(code: int, message: string)
    | Complete(output: seq<Byte>)

  predicate Terminal(e: RequestEvent)
  {
    e.Error? || e.Complete?
  }

  /** The number of `error` and `complete` signals in `events`. */
  function TerminalCount(events: seq<RequestEvent>): nat
  {
    if events == [] then 0
    else TerminalCount(events[..|events| - 1]) + (if Terminal(events[|events| - 1]) then 1 else 0)
  }

  /** What libcurl reported for one transfer. */
  datatype Transfer = Transfer(
    result: CurlCode,
    responseCode: int,
    errorBuffer: seq<char>,
    reports: seq<real>,
    written: seq<Byte>)

  /** How `run` or `fileExists` ended: it returned, or `encodeUrl` threw. */
  datatype Exit = Returned | Threw(error: EncodeError)

  /** `run` goes past `createCurl` only when `curl_easy_init` succeeded and `encodeUrl` did not throw. */
  predicate Performs(url: seq<Byte>, charIsSigned: bool, initialized: bool)
  {
    initialized && EncodeUrl(url, charIsSigned).Ok?
  }

  /** The `progress` signals the progress handler sent during the transfer. */
  function ProgressEvents(reports: seq<real>): (r: seq<RequestEvent>)
    ensures |r| == |reports| && TerminalCount(r) == 0
  {
    if reports == [] then [] else ProgressEvents(reports[..|reports| - 1]) + [Progress(reports[|reports| - 1])]
  }

  /** The signal that closes a transfer that went through `curl_easy_perform`. */
  function Outcome(t: Transfer, output: seq<Byte>): seq<RequestEvent>
  {
    if RunSucceeded(t.result, t.responseCode) then [Progress(1.0), Complete(output)]
    else [Error(t.responseCode, ErrorMessage(t.responseCode, t.result, t.errorBuffer))]
  }

  /** The signals of one `run`; `output` is `_output` after the transfer. */
  function RunEvents(url: seq<Byte>, charIsSigned: bool, initialized: bool, t: Transfer, output: seq<Byte>): seq<RequestEvent>
  {
    if !initialized then [Progress(0.0), Error(1, INIT_FAILED)]
    else if EncodeUrl(url, charIsSigned).Err? then [Progress(0.0)]
    else [Progress(0.0)] + ProgressEvents(t.reports) + Outcome(t, output)
  }

  /** The lines `run` passes to `LOG_ERROR`: the message of a transfer that went through and failed. */
  function RunLog(url: seq<Byte>, charIsSigned: bool, initialized: bool, t: Transfer): seq<string>
  {
    if Performs(url, charIsSigned, initialized) && !RunSucceeded(t.result, t.responseCode)
    then [ErrorMessage(t.responseCode, t.result, t.errorBuffer)]
    else []
  }

  /**
   * `run` logs at most one line; every `error` it signals after creating the
   * handle is logged, with the signal's message, and nothing else is; a
   * failed `curl_easy_init` is signalled but not logged.
   */
  lemma RunLogMatchesError(url: seq<Byte>, charIsSigned: bool, initialized: bool, t: Transfer, output: seq<Byte>)
    ensures var log, e := RunLog(url, charIsSigned, initialized, t), RunEvents(url, charIsSigned, initialized, t, output);
      && |log| <= 1
      && (!initialized ==> log == [])
      && (initialized && e[|e| - 1].Error? ==> log == [e[|e| - 1].message] && e[|e| - 1].code == t.responseCode)
      && (log != [] ==> e[|e| - 1] == Error(t.responseCode, log[0]))
  {
    var e := RunEvents(url, charIsSigned, initialized, t, output);
    if Performs(url, charIsSigned, initialized) {
      assert e == [Progress(0.0)] + ProgressEvents(t.reports) + Outcome(t, output);
    }
  }

  lemma {:induction false} TerminalCountAppend(a: seq<RequestEvent>, b: seq<RequestEvent>)
    ensures TerminalCount(a + b) == TerminalCount(a) + TerminalCount(b)
    decreases |b|
  {
    if b == [] {
      assert a + b == a;
    } else {
      assert (a + b)[..|a + b| - 1] == a + b[..|b| - 1];
      TerminalCountAppend(a, b[..|b| - 1]);
    }
  }

  /**
   * `run` starts with `progress(0)`; when it returns it has sent exactly one
   * `error` or `complete`, as its last signal; when `encodeUrl` throws, the
   * exception leaves `run` after `progress(0)` and nothing else.
   */
  lemma OneOutcome(url: seq<Byte>, charIsSigned: bool, initialized: bool, t: Transfer, output: seq<Byte>)
    ensures var e := RunEvents(url, charIsSigned, initialized, t, output);
      && |e| >= 1 && e[0] == Progress(0.0)
      && (initialized && EncodeUrl(url, charIsSigned).Err? <==> TerminalCount(e) == 0)
      && (TerminalCount(e) == 0 ==> e == [Progress(0.0)])
      && (TerminalCount(e) != 0 ==> TerminalCount(e) == 1 && Terminal(e[|e| - 1]))
  {
    var e := RunEvents(url, charIsSigned, initialized, t, output);
    var p := ProgressEvents(t.reports);
    var o := Outcome(t, output);
    TerminalCountAppend([Progress(0.0)], [Error(1, INIT_FAILED)]);
    assert [Progress(0.0)][..0] == [];
    assert [Error(1, INIT_FAILED)][..0] == [];
    if Performs(url, charIsSigned, initialized) {
      TerminalCountAppend([Progress(0.0)], p);
      TerminalCountAppend([Progress(0.0)] + p, o);
      if RunSucceeded(t.result, t.responseCode) {
        TerminalCountAppend([Progress(1.0)], [Complete(output)]);
        assert [Complete(output)][..0] == [];
        assert [Progress(1.0)][..0] == [];
      } else {
        assert o[..0] == [];
      }
    }
  }

  /**
   * `complete` is sent exactly when the transfer ran and succeeded, and then
   * carries `_output`, right after `progress(1)`; a failed `curl_easy_init`
   * sends error 1; any other failure sends the response code and the message.
   */
  lemma RunOutcomes(url: seq<Byte>, charIsSigned: bool, initialized: bool, t: Transfer, output: seq<Byte>)
    ensures var e := RunEvents(url, charIsSigned, initialized, t, output);
      && (!initialized ==> e == [Progress(0.0), Error(1, INIT_FAILED)])
      && (Performs(url, charIsSigned, initialized) && RunSucceeded(t.result, t.responseCode) ==>
            e[|e| - 2..] == [Progress(1.0), Complete(output)])
      && (Performs(url, charIsSigned, initialized) && !RunSucceeded(t.result, t.responseCode) ==>
            e[|e| - 1] == Error(t.responseCode, ErrorMessage(t.responseCode, t.result, t.errorBuffer)))
      && ((exists i :: 0 <= i < |e| && e[i].Complete?) <==>
            Performs(url, charIsSigned, initialized) && RunSucceeded(t.result, t.responseCode))
  {
    var e := RunEvents(url, charIsSigned, initialized, t, output);
    if Performs(url, charIsSigned, initialized) {
      var p := ProgressEvents(t.reports);
      assert e == [Progress(0.0)] + p + Outcome(t, output);
      ProgressEventsAreProgress(t.reports);
      if RunSucceeded(t.result, t.responseCode) {
        assert e[|e| - 1].Complete?;
      } else {
        forall i | 0 <= i < |e|
          ensures !e[i].Complete?
        {
          if 1 <= i < 1 + |p| {
            assert e[i] == p[i - 1];
          }
        }
      }
    }
  }

  lemma ProgressEventsAreProgress(reports: seq<real>)
    ensures forall i :: 0 <= i < |reports| ==> ProgressEvents(reports)[i] == Progress(reports[i])
  {
    if reports != [] {
      ProgressEventsAreProgress(reports[..|reports| - 1]);
    }
  }

  class Request {
    /** `_url`. */
    const url: seq<Byte>
    /** `_output`: the bytes the write handler received, over every `run`. */
    var output: seq<Byte>
    /** The `progress`, `error` and `complete` signals sent so far. */
    var events: seq<RequestEvent>
    /** The lines `run` passed to `LOG_ERROR` so far. */
    var logged: seq<string>

    constructor (url: seq<Byte>)
      ensures this.url == url && output == [] && events == [] && logged == []
    {
      this.url := url;
      output := [];
      events := [];
      logged := [];
    }

    /** `curlWriteHandler`: append the received bytes to `_output` and report them all taken. */
    method WriteHandler(data: seq<Byte>) returns (taken: nat)
      modifies this`output
      ensures output == old(output) + data && taken == |data|
    {
      output := output + data;
      taken := |data|;
    }

    /**
     * The end of `run` once the transfer is over: log and signal the error,
     * or signal `progress(1)` and `complete` with `_output`.
     */
    method SignalOutcome(t: Transfer)
      modifies this`events, this`logged
      ensures events == old(events) + Outcome(t, output)
      ensures logged == old(logged) + if RunSucceeded(t.result, t.responseCode) then [] else [ErrorMessage(t.responseCode, t.result, t.errorBuffer)]
    {
      if !RunSucceeded(t.result, t.responseCode) {
        var errorMessage := ErrorMessage(t.responseCode, t.result, t.errorBuffer);
        logged := logged + [errorMessage];
        events := events + [Error(t.responseCode, errorMessage)];
      } else {
        events := events + [Progress(1.0), Complete(output)];
      }
    }

    /**
     * `run`: signal `progress(0)`, create the cURL handle, run the transfer
     * and signal its outcome. `_output` is not cleared first, so `complete`
     * carries whatever earlier runs received as well.
     */
    method Run(charIsSigned: bool, initialized: bool, t: Transfer) returns (exit: Exit)
      modifies this`output, this`events, this`logged
      ensures exit == if initialized && EncodeUrl(url, charIsSigned).Err? then Threw(EncodeUrl(url, charIsSigned).error) else Returned
      ensures output == if Performs(url, charIsSigned, initialized) then old(output) + t.written else old(output)
      ensures events == old(events) + RunEvents(url, charIsSigned, initialized, t, old(output) + t.written)
      ensures logged == old(logged) + RunLog(url, charIsSigned, initialized, t)
    {
      events := events + [Progress(0.0)];
      if !initialized {
        events := events + [Error(1, INIT_FAILED)];
        return Returned;
      }
      var encoded := EncodeUrlStream(url, charIsSigned);
      if encoded.Err? {
        return Threw(encoded.error);
      }
      var progress := ProgressEvents(t.reports);
      events := events + progress;
      ghost var transferred := events;
      var _ := WriteHandler(t.written);
      SignalOutcome(t);
      assert events == transferred + Outcome(t, old(output) + t.written);
      assert events == old(events) + ([Progress(0.0)] + progress + Outcome(t, old(output) + t.written));
      exit := Returned;
    }
  }

  // ---------------------------------------------------------------------------
  // `fileExists`

  /** How `fileExists` ended: its answer and what it logged, or the exception of `encodeUrl`. */
  datatype FileExistsResult = Answered(exists_: bool, logged: seq<string>) | FileExistsThrew(error: EncodeError)

  /** `fileExists`, a header-only request. */
  function FileExists(url: seq<Byte>, charIsSigned: bool, initialized: bool, status: CurlCode, responseCode: int, errorBuffer: seq<char>): FileExistsResult
  {
    if !initialized then Answered(false, [INIT_FAILED])
    else if EncodeUrl(url, charIsSigned).Err? then FileExistsThrew(EncodeUrl(url, charIsSigned).error)
    else if FileExistsSucceeded(status, responseCode) then Answered(true, [])
    else Answered(false, [ErrorMessage(responseCode, status, errorBuffer)])
  }

  /**
   * `fileExists` answers yes exactly when the handle was created, the URL
   * encoded and the server answered 200 with the transfer fine, and then logs
   * nothing; every no is logged once, with the reason.
   */
  lemma FileExistsAnswers(url: seq<Byte>, charIsSigned: bool, initialized: bool, status: CurlCode, responseCode: int, errorBuffer: seq<char>)
    ensures var r := FileExists(url, charIsSigned, initialized, status, responseCode, errorBuffer);
      && (r == Answered(true, []) <==>
            Performs(url, charIsSigned, initialized) && FileExistsSucceeded(status, responseCode))
      && (r.Answered? && r.exists_ ==> r.logged == [])
      && (r.Answered? && !r.exists_ ==>
            |r.logged| == 1 && r.logged[0] == if initialized then ErrorMessage(responseCode, status, errorBuffer) else INIT_FAILED)
      && (r.FileExistsThrew? <==> initialized && EncodeUrl(url, charIsSigned).Err?)
  {
  }
}
