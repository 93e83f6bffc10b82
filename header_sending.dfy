/** HeaderSendingInterceptor.java: a server call that appends the headers
    the service chose to the response headers, and that always sends
    headers, once, before it closes. */
module HeaderSending {
  import opened Common

  /** What the wrapped server call receives. */
  datatype CallEvent = SentHeaders(headers: Metadata) | Closed(status: Status, trailers: Metadata)

  /** The number of header sends in a list of call events. */
  function Sends(events: seq<CallEvent>): (n: nat)
    ensures n <= |events|
  {
    if events == [] then 0
    else Sends(events[..|events| - 1]) + (if events[|events| - 1].SentHeaders? then 1 else 0)
  }

  /** Some event before position `i` is a header send. */
  predicate SentBefore(events: seq<CallEvent>, i: nat)
    requires i <= |events|
  {
    exists j :: 0 <= j < i && events[j].SentHeaders?
  }

  /** Every close is preceded by a header send. */
  predicate HeadersBeforeClose(events: seq<CallEvent>) {
    forall i :: 0 <= i < |events| && events[i].Closed? ==> SentBefore(events, i)
  }

  /** `HeaderSendingServerCall`, made by `interceptCall` for each call:
      `appendHeaders` starts as empty metadata, `headersSent` as false;
      `forwarded` is what the wrapped call has received. */
  class HeaderSendingServerCall {
    var headersSent: bool
    var appendHeaders: Metadata
    var forwarded: seq<CallEvent>

    ghost predicate Valid()
      reads this
    {
      && (headersSent <==> SentBefore(forwarded, |forwarded|))
      && HeadersBeforeClose(forwarded)
    }

    constructor ()
      ensures Valid()
      ensures !headersSent && appendHeaders == [] && forwarded == []
    {
      headersSent := false;
      appendHeaders := [];
      forwarded := [];
    }

    /** The `SET_HEADERS` consumer: the stored headers are replaced, so the
        last call wins. */
    method SetHeaders(headers: Metadata)
      requires Valid()
      modifies this`appendHeaders
      ensures Valid()
      ensures appendHeaders == headers
    {
      appendHeaders := headers;
    }

    /** `sendHeaders`: marks headers as sent and forwards the response
        headers followed by the stored ones (`Metadata.merge`). */
    method SendHeaders(responseHeaders: Metadata)
      requires Valid()
      modifies this`headersSent, this`forwarded
      ensures Valid()
      ensures headersSent
      ensures forwarded == old(forwarded) + [SentHeaders(responseHeaders + appendHeaders)]
    {
      headersSent := true;
      AppendKeepsOrder(forwarded, SentHeaders(responseHeaders + appendHeaders));
      forwarded := forwarded + [SentHeaders(responseHeaders + appendHeaders)];
    }

    /** `close`: empty headers (with the stored ones) first when none were
        sent, then the close itself. */
    method Close(status: Status, trailers: Metadata)
      requires Valid()
      modifies this`headersSent, this`forwarded
      ensures Valid()
      ensures headersSent
      ensures !old(headersSent) ==> forwarded == old(forwarded) + [SentHeaders(appendHeaders), Closed(status, trailers)]
      ensures old(headersSent) ==> forwarded == old(forwarded) + [Closed(status, trailers)]
    {
      var closed := Closed(status, trailers);
      if !headersSent {
        ghost var before := forwarded;
        SendHeaders([]);
        assert [] + appendHeaders == appendHeaders;
        assert forwarded == before + [SentHeaders(appendHeaders)];
        AppendKeepsOrder(forwarded, closed);
        forwarded := forwarded + [closed];
        assert forwarded == before + [SentHeaders(appendHeaders), closed];
      } else {
        AppendKeepsOrder(forwarded, closed);
        forwarded := forwarded + [closed];
      }
    }
  }

  // ------------------------------------------------------------ properties

  lemma SendsAppend(events: seq<CallEvent>, e: CallEvent)
    ensures Sends(events + [e]) == Sends(events) + (if e.SentHeaders? then 1 else 0)
  {
    assert (events + [e])[..|events|] == events;
  }

  /** Appending a send, or a close after some send, keeps every close after
      a send; a send is remembered. */
  lemma AppendKeepsOrder(events: seq<CallEvent>, e: CallEvent)
    requires HeadersBeforeClose(events)
    requires e.Closed? ==> SentBefore(events, |events|)
    ensures HeadersBeforeClose(events + [e])
    ensures SentBefore(events + [e], |events| + 1) <==> SentBefore(events, |events|) || e.SentHeaders?
  {
    var es := events + [e];
    forall i | 0 <= i < |es| && es[i].Closed?
      ensures SentBefore(es, i)
    {
      assert SentBefore(events, i) by {
        if i < |events| { assert es[i] == events[i]; }
      }
      var j :| 0 <= j < i && events[j].SentHeaders?;
      assert es[j] == events[j];
    }
    if e.SentHeaders? {
      assert es[|events|].SentHeaders?;
    }
    if SentBefore(es, |events| + 1) && !e.SentHeaders? {
      var j :| 0 <= j < |events| + 1 && es[j].SentHeaders?;
      assert events[j].SentHeaders?;
    }
    if SentBefore(events, |events|) {
      var j :| 0 <= j < |events| && events[j].SentHeaders?;
      assert es[j].SentHeaders?;
    }
  }

  /** Sends are counted: some send happened iff the count is positive. */
  lemma {:induction false} SentIffCounted(events: seq<CallEvent>)
    ensures SentBefore(events, |events|) <==> Sends(events) > 0
    decreases |events|
  {
    if events != [] {
      var n := |events| - 1;
      var init := events[..n];
      SentIffCounted(init);
      assert events == init + [events[n]];
      if SentBefore(events, |events|) && !events[n].SentHeaders? {
        var j :| 0 <= j < |events| && events[j].SentHeaders?;
        assert init[j].SentHeaders?;
      }
      if SentBefore(init, n) {
        var j :| 0 <= j < n && init[j].SentHeaders?;
        assert events[j].SentHeaders?;
      }
    }
  }

  /** A call that is only closed still sends the stored headers first. */
  method CloseOnly(stored: Metadata, status: Status, trailers: Metadata) returns (events: seq<CallEvent>)
    ensures events == [SentHeaders(stored), Closed(status, trailers)]
  {
    var call := new HeaderSendingServerCall();
    call.SetHeaders(stored);
    assert !call.headersSent && call.forwarded == [];
    call.Close(status, trailers);
    events := call.forwarded;
  }

  /** Headers sent by the service are not sent again by `close`, and the
      headers the service set last are the ones appended. */
  method SendThenClose(first: Metadata, last: Metadata, responseHeaders: Metadata, status: Status, trailers: Metadata)
    returns (events: seq<CallEvent>)
    ensures events == [SentHeaders(responseHeaders + last), Closed(status, trailers)]
    ensures Sends(events) == 1
  {
    var call := new HeaderSendingServerCall();
    call.SetHeaders(first);
    call.SetHeaders(last);
    call.SendHeaders(responseHeaders);
    assert call.headersSent && call.forwarded == [SentHeaders(responseHeaders + last)];
    call.Close(status, trailers);
    events := call.forwarded;
    OneSendThenClose(responseHeaders + last, status, trailers);
  }

  lemma OneSendThenClose(headers: Metadata, status: Status, trailers: Metadata)
    ensures Sends([SentHeaders(headers), Closed(status, trailers)]) == 1
  {
    SendsAppend([], SentHeaders(headers));
    assert [SentHeaders(headers), Closed(status, trailers)] == [SentHeaders(headers)] + [Closed(status, trailers)];
    SendsAppend([SentHeaders(headers)], Closed(status, trailers));
  }
}
