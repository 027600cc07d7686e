/**
 * app/models/mailbox.go: a mailbox's local index of messages, merged from
 * UID FETCH responses; the fetch-once cache of a message's body text; and
 * parsing that body into a tree of parts.
 */
module Mailbox {
  import opened Wrappers
  import opened Text
  import opened Mime
  import opened Multipart

  /** IMAP UIDs are unsigned 32-bit numbers. */
  type uint32 = x: int | 0 <= x < 0x1_0000_0000

  // ---- the requested UID range ----

  /** The sequence-set text `Update` requests: `fmt.Sprintf("%d:*", cursor)`. */
  function SeqSetSpec(cursor: nat): string
  {
    DecimalString(cursor) + ":*"
  }

  /**
   * A UID range `lower:*`: every UID from `lower` on. Section 9 of RFC 3501
   * makes `*` the largest UID in use, so `n:*` also takes in that largest UID
   * when it is below `n`; `Contains` does not cover that case.
   */
  datatype UidRange = From(lower: nat)

  predicate Contains(r: UidRange, uid: nat)
  {
    r.lower <= uid
  }

  /** Reads a `<digits>:*` sequence set back. */
  function ParseSeqSet(s: string): (r: Option<UidRange>)
    ensures r.Some? ==> |s| >= 3
  {
    if |s| >= 3 && s[|s| - 2..] == ":*" && forall c <- s[..|s| - 2] :: IsDigit(c)
    then Some(From(ParseDecimal(s[..|s| - 2])))
    else None
  }

  /** The requested set is exactly `cursor:*`, so the message at the cursor is asked for again. */
  lemma SeqSetRequestsCursor(cursor: nat)
    ensures ParseSeqSet(SeqSetSpec(cursor)) == Some(From(cursor))
    ensures Contains(From(cursor), cursor)
  {
    var s := SeqSetSpec(cursor);
    assert s[..|s| - 2] == DecimalString(cursor);
    assert s[|s| - 2..] == ":*";
    DecimalRoundTrip(cursor);
  }

  // ---- one message ----

  /** One message of a FETCH response: its UID attribute, if present, and its RFC822.HEADER bytes. */
  datatype ResponseItem = ResponseItem(uid: Option<uint32>, header: seq<byte>)

  /** `mail.ReadMessage` on header bytes, left abstract: the parsed header or a failure. */
  type MessageReader = seq<byte> -> Option<Header>

  /** The node a new message starts with: header and content type, no children, no body. */
  function HeaderNode(h: Header): MessageNode
  {
    MessageNode(Get(h, ContentType), h, NilChildren, None)
  }

  /** The FETCH data items of a body fetch: the `BODY[TEXT]` attribute of each response, if any. */
  type BodyResponses = seq<Option<seq<byte>>>

  /** Connecting, building the set and fetching one UID with a request type, left abstract. */
  type Retriever = string -> Result<BodyResponses>

  const BodyText: string := "BODY[TEXT]"
  const BodyPeekText: string := "BODY.PEEK[TEXT]"

  /** The fetch item `Body` asks for: the peek form leaves the \Seen flag alone (section 6.4.5 of RFC 3501). */
  function RequestType(setRead: bool): (t: string)
    ensures t == BodyText <==> setRead
  {
    if setRead then BodyText else BodyPeekText
  }

  /** `imap.AsBytes` on an attribute: a missing one reads as a nil slice. */
  function AsBytes(attr: Option<seq<byte>>): seq<byte>
  {
    if attr.Some? then attr.value else []
  }

  /** What one `Body` call returns, and the cache it leaves. */
  datatype Loaded = Loaded(result: Result<seq<byte>>, cache: Option<seq<byte>>)

  /**
   * `Body`: a cached body is returned as it is; otherwise one fetch, whose
   * first response's `BODY[TEXT]` becomes the cache. An empty response is a
   * failure here (see `LoadAsWritten`).
   */
  function Load(cache: Option<seq<byte>>, setRead: bool, retrieve: Retriever): (l: Loaded)
    ensures cache.Some? ==> l == Loaded(Ok(cache.value), cache)
    ensures l.result.Err? ==> l.cache == cache
    ensures l.cache.Some? ==> l.result == Ok(l.cache.value)
    ensures cache.None? ==> (l.result.Ok? <==> retrieve(RequestType(setRead)).Ok? && retrieve(RequestType(setRead)).value != [])
    ensures cache.None? && retrieve(RequestType(setRead)).Err? ==> l == Loaded(Err(retrieve(RequestType(setRead)).error), None)
    ensures cache.None? && retrieve(RequestType(setRead)).Ok? && retrieve(RequestType(setRead)).value != [] ==>
              var first := retrieve(RequestType(setRead)).value[0];
              l == Loaded(Ok(AsBytes(first)), first)
  {
    if cache.Some? then Loaded(Ok(cache.value), cache)
    else
      match retrieve(RequestType(setRead))
      case Err(e) => Loaded(Err(e), None)
      case Ok(responses) =>
        if responses == [] then Loaded(Err("no response data"), None)
        else Loaded(Ok(AsBytes(responses[0])), responses[0])
  }

  /** `Body` as written: `cmd.Data[0]` on an empty response is an index-out-of-range panic (None). */
  function LoadAsWritten(cache: Option<seq<byte>>, setRead: bool, retrieve: Retriever): (l: Option<Loaded>)
    ensures l.Some? ==> l.value.cache.Some? ==> l.value.result == Ok(l.value.cache.value)
  {
    if cache.Some? then Some(Loaded(Ok(cache.value), cache))
    else
      match retrieve(RequestType(setRead))
      case Err(e) => Some(Loaded(Err(e), None))
      case Ok(responses) =>
        if |responses| == 0 then None
        else Some(Loaded(Ok(AsBytes(responses[0])), responses[0]))
  }

  /** As written, an uncached body whose fetch succeeds with no response data panics. */
  lemma LoadAsWrittenPanicsOnEmptyResponse(setRead: bool, retrieve: Retriever)
    requires retrieve(RequestType(setRead)) == Ok([])
    ensures LoadAsWritten(None, setRead, retrieve) == None
    ensures Load(None, setRead, retrieve).result.Err?
  {
  }

  /** Everywhere else the as-written cache agrees with `Load`. */
  lemma LoadAsWrittenAgreesOtherwise(cache: Option<seq<byte>>, setRead: bool, retrieve: Retriever)
    requires cache.Some? || retrieve(RequestType(setRead)) != Ok([])
    ensures LoadAsWritten(cache, setRead, retrieve) == Some(Load(cache, setRead, retrieve))
  {
  }

  /**
   * A peek that fills the cache is followed by a marking load that fetches
   * nothing and returns the same bytes, whatever the server would now say.
   */
  lemma PeekThenReadHitsCache(retrieve: Retriever, later: Retriever)
    requires Load(None, false, retrieve).cache.Some?
    ensures Load(Load(None, false, retrieve).cache, true, later).result == Load(None, false, retrieve).result
  {
  }

  /** Why `ParseBody` failed: no body yet, or the conversion's own error. */
  datatype BodyError = NilBody | Unparsed(error: ParseError)

  /** What `ParseBody` returns, and the message node it leaves on the email. */
  datatype Parsed = Parsed(node: Option<MessageNode>, error: Option<BodyError>, message: MessageNode)

  /**
   * `ParseBody`: with no body, an error; otherwise convert header and body.
   * A `ChildError` keeps the mostly-good tree on the email; any other error
   * returns no tree; a clean parse returns the tree without storing it.
   */
  function ParseBodyResult(bodyData: Option<seq<byte>>, message: MessageNode, parse: MediaParser, split: Splitter): (p: Parsed)
    ensures bodyData.None? ==> p == Parsed(None, Some(NilBody), message)
    ensures p.message != message ==> p.node == Some(p.message) && p.error.Some? && p.error.value.Unparsed?
                                     && p.error.value.error.ChildErrors?
    ensures p.node.Some? ==> WellShaped(p.node.value) && p.node.value.header == message.header
    ensures p.error.None? ==> p.node.Some? && p.message == message
    ensures bodyData.Some? ==>
              var c := MessageToNode(parse, split, message.header, bodyData.value);
              && (c.error.None? ==> p == Parsed(Some(c.node), None, message))
              && (c.error.Some? && c.error.value.ChildErrors? ==> p == Parsed(Some(c.node), Some(Unparsed(c.error.value)), c.node))
              && (c.error.Some? && !c.error.value.ChildErrors? ==> p == Parsed(None, Some(Unparsed(c.error.value)), message))
  {
    match bodyData
    case None => Parsed(None, Some(NilBody), message)
    case Some(data) =>
      var c := MessageToNode(parse, split, message.header, data);
      match c.error
      case None => Parsed(Some(c.node), None, message)
      case Some(e) =>
        if e.ChildErrors? then Parsed(Some(c.node), Some(Unparsed(e)), c.node)
        else Parsed(None, Some(Unparsed(e)), message)
  }

  /** `Email`: a message of the mailbox, its parsed tree and its body cache. */
  class Email {
    const uid: uint32
    var message: MessageNode
    /** `bodyData`: None while the slice is nil. */
    var bodyData: Option<seq<byte>>

    constructor (uid: uint32, message: MessageNode)
      ensures this.uid == uid && this.message == message && bodyData == None
    {
      this.uid := uid;
      this.message := message;
      bodyData := None;
    }

    /** `Body(setRead)` over the abstract fetch. */
    method Body(setRead: bool, retrieve: Retriever) returns (r: Result<seq<byte>>)
      modifies this
      ensures Loaded(r, bodyData) == Load(old(bodyData), setRead, retrieve)
      ensures message == old(message)
    {
      if bodyData.Some? {
        return Ok(bodyData.value);
      }
      var requestType := if setRead then BodyText else BodyPeekText;
      var fetched := retrieve(requestType);
      if fetched.Err? {
        return Err(fetched.error);
      }
      if fetched.value == [] {
        return Err("no response data");
      }
      bodyData := fetched.value[0];
      r := Ok(AsBytes(bodyData));
    }

    /** `ParseBody` over the abstract media-type parser and splitter. */
    method ParseBody(parse: MediaParser, split: Splitter) returns (node: Option<MessageNode>, err: Option<BodyError>)
      modifies this
      ensures Parsed(node, err, message) == ParseBodyResult(old(bodyData), old(message), parse, split)
      ensures bodyData == old(bodyData)
    {
      if bodyData.None? {
        return None, Some(NilBody);
      }
      var c := MessageToNode(parse, split, message.header, bodyData.value);
      if c.error.Some? {
        if c.error.value.ChildErrors? {
          message := c.node;
          return Some(c.node), Some(Unparsed(c.error.value));
        }
        return None, Some(Unparsed(c.error.value));
      }
      return Some(c.node), None;
    }
  }

  // ---- merging fetch responses ----

  /** An item `Update` keeps: its UID and its parsed header. */
  datatype Accepted = Accepted(uid: uint32, header: Header)

  /** An item is kept when it carries a UID and its header bytes parse. */
  function Accept(item: ResponseItem, readMessage: MessageReader): Option<Accepted>
  {
    if item.uid.None? then None
    else
      match readMessage(item.header)
      case None => None
      case Some(h) => Some(Accepted(item.uid.value, h))
  }

  /** The kept items of a run of response items, in arrival order. */
  function AcceptedIn(items: seq<ResponseItem>, readMessage: MessageReader): (acc: seq<Accepted>)
    ensures |acc| <= |items|
    decreases |items|
  {
    if items == [] then []
    else
      var last := Accept(items[|items| - 1], readMessage);
      AcceptedIn(items[..|items| - 1], readMessage) + (if last.Some? then [last.value] else [])
  }

  /** All items of a sequence of response batches, in arrival order. */
  function Items(batches: seq<seq<ResponseItem>>): seq<ResponseItem>
    decreases |batches|
  {
    if batches == [] then [] else Items(batches[..|batches| - 1]) + batches[|batches| - 1]
  }

  /** Keeping items distributes over concatenation. */
  lemma {:induction false} AcceptedInConcat(a: seq<ResponseItem>, b: seq<ResponseItem>, readMessage: MessageReader)
    ensures AcceptedIn(a + b, readMessage) == AcceptedIn(a, readMessage) + AcceptedIn(b, readMessage)
    decreases |b|
  {
    if b == [] {
      assert a + b == a;
    } else {
      var n := |b| - 1;
      var last := Accept(b[n], readMessage);
      var tail := if last.Some? then [last.value] else [];
      assert (a + b)[..|a + b| - 1] == a + b[..n];
      assert (a + b)[|a + b| - 1] == b[n];
      assert AcceptedIn(a + b, readMessage) == AcceptedIn(a + b[..n], readMessage) + tail;
      assert AcceptedIn(b, readMessage) == AcceptedIn(b[..n], readMessage) + tail;
      AcceptedInConcat(a, b[..n], readMessage);
    }
  }

  /** An item with no UID or an unreadable header changes nothing about what is kept. */
  lemma SkippedItemIsInvisible(before: seq<ResponseItem>, item: ResponseItem, after: seq<ResponseItem>, readMessage: MessageReader)
    requires item.uid.None? || readMessage(item.header).None?
    ensures AcceptedIn(before + [item] + after, readMessage) == AcceptedIn(before + after, readMessage)
  {
    AcceptedInConcat(before + [item], after, readMessage);
    AcceptedInConcat(before, [item], readMessage);
    AcceptedInConcat(before, after, readMessage);
    assert [item][..0] == [];
  }

  /** The cursor after keeping `acc`: the UID of the last item kept, if any. */
  function Cursor(cursor: uint32, acc: seq<Accepted>): uint32
  {
    if acc == [] then cursor else acc[|acc| - 1].uid
  }

  /** The index a list of emails adds to the map: each UID to the last email with it. */
  function Index(emails: seq<Email>): map<uint32, Email>
    decreases |emails|
  {
    if emails == [] then map[]
    else Index(emails[..|emails| - 1])[emails[|emails| - 1].uid := emails[|emails| - 1]]
  }

  /** The index covers exactly the UIDs of the list, each mapped to the last email carrying it. */
  lemma {:induction false} IndexCovers(emails: seq<Email>)
    ensures Index(emails).Keys == set e <- emails :: e.uid
    ensures forall u <- Index(emails) :: Index(emails)[u] in emails && Index(emails)[u].uid == u
    ensures forall i :: 0 <= i < |emails| && (forall j :: i < j < |emails| ==> emails[j].uid != emails[i].uid)
              ==> Index(emails)[emails[i].uid] == emails[i]
    decreases |emails|
  {
    if emails != [] {
      var n := |emails| - 1;
      IndexCovers(emails[..n]);
      assert emails == emails[..n] + [emails[n]];
      forall i | 0 <= i < n && (forall j :: i < j < |emails| ==> emails[j].uid != emails[i].uid)
        ensures Index(emails)[emails[i].uid] == emails[i]
      {
        assert emails[..n][i] == emails[i];
      }
    }
  }

  /** The cursor is not the largest UID kept: a later, smaller UID moves it back. */
  lemma CursorCanMoveBack(h: Header)
    ensures Cursor(1, [Accepted(5, h), Accepted(3, h)]) == 3
  {
  }

  /** When kept UIDs arrive in ascending order from the cursor on, the cursor ends at the largest. */
  lemma {:induction false} CursorIsMaxWhenAscending(cursor: uint32, acc: seq<Accepted>)
    requires forall i, j :: 0 <= i < j < |acc| ==> acc[i].uid <= acc[j].uid
    requires forall a <- acc :: cursor <= a.uid
    ensures cursor <= Cursor(cursor, acc)
    ensures forall a <- acc :: a.uid <= Cursor(cursor, acc)
  {
    if acc != [] {
      forall a <- acc ensures a.uid <= acc[|acc| - 1].uid {
        var i :| 0 <= i < |acc| && acc[i] == a;
      }
    }
  }

  /** `e` is the new message made from the kept item `a`, with no body fetched yet. */
  ghost predicate Made(e: Email, a: Accepted)
    reads e
  {
    e.uid == a.uid && e.message == HeaderNode(a.header) && e.bodyData == None
  }

  /** `emails` are the new messages made from `acc`, in order. */
  ghost predicate Records(emails: seq<Email>, acc: seq<Accepted>)
    reads emails
    decreases |emails|
  {
    && |emails| == |acc|
    && (emails != [] ==> Records(emails[..|emails| - 1], acc[..|acc| - 1]) && Made(emails[|emails| - 1], acc[|acc| - 1]))
  }

  lemma RecordsExtend(emails: seq<Email>, acc: seq<Accepted>, e: Email, a: Accepted)
    requires Records(emails, acc)
    requires Made(e, a)
    ensures Records(emails + [e], acc + [a])
  {
    assert (emails + [e])[..|emails|] == emails;
    assert (acc + [a])[..|acc|] == acc;
  }

  /** `Records` entry by entry. */
  lemma {:induction false} RecordsEach(emails: seq<Email>, acc: seq<Accepted>)
    requires Records(emails, acc)
    ensures |emails| == |acc| && forall k :: 0 <= k < |acc| ==> Made(emails[k], acc[k])
    decreases |emails|
  {
    if emails != [] {
      var n := |emails| - 1;
      RecordsEach(emails[..n], acc[..n]);
      forall k | 0 <= k < |acc| ensures Made(emails[k], acc[k]) {
        if k < n {
          assert emails[..n][k] == emails[k] && acc[..n][k] == acc[k];
        }
      }
    }
  }

  /** Overriding after a union is a union with the override. */
  lemma UnionUpdate(base: map<uint32, Email>, added: map<uint32, Email>, u: uint32, e: Email)
    ensures (base + added)[u := e] == base + added[u := e]
  {
  }

  /** Keeping one more item appends it to the index and overrides its UID. */
  lemma IndexAppend(emails: seq<Email>, e: Email)
    ensures Index(emails + [e]) == Index(emails)[e.uid := e]
  {
    assert (emails + [e])[..|emails|] == emails;
  }

  lemma AcceptedInStep(items: seq<ResponseItem>, i: nat, readMessage: MessageReader)
    requires i < |items|
    ensures AcceptedIn(items[..i + 1], readMessage)
         == AcceptedIn(items[..i], readMessage)
            + (if Accept(items[i], readMessage).Some? then [Accept(items[i], readMessage).value] else [])
  {
    assert items[..i + 1][..i] == items[..i];
  }

  /** Keeping from one more item of a batch, after `acc` kept so far. */
  lemma KeptStep(acc: seq<Accepted>, data: seq<ResponseItem>, i: nat, readMessage: MessageReader)
    requires i < |data|
    ensures Accept(data[i], readMessage).None? ==> acc + AcceptedIn(data[..i + 1], readMessage) == acc + AcceptedIn(data[..i], readMessage)
    ensures Accept(data[i], readMessage).Some? ==>
              acc + AcceptedIn(data[..i + 1], readMessage) == acc + AcceptedIn(data[..i], readMessage) + [Accept(data[i], readMessage).value]
  {
    AcceptedInStep(data, i, readMessage);
  }

  lemma ItemsStep(batches: seq<seq<ResponseItem>>, b: nat)
    requires b < |batches|
    ensures Items(batches[..b + 1]) == Items(batches[..b]) + batches[b]
  {
    assert batches[..b + 1][..b] == batches[..b];
  }

  class Mailbox {
    /**
     * The merge so far: `emails` were made from `acc`, the cursor is the last
     * UID kept after `cursor`, and the map is `base` with the emails indexed.
     */
    ghost predicate Synced(emails: seq<Email>, acc: seq<Accepted>, cursor: uint32, base: map<uint32, Email>)
      reads this, emails
    {
      && Records(emails, acc)
      && latestMessage == Cursor(cursor, acc)
      && mail == base + Index(emails)
    }

    /** `latestMessage`, the sync cursor. */
    var latestMessage: uint32
    const name: string
    var mail: map<uint32, Email>

    /** `NewMailbox`; the back-reference to the server is left out. */
    constructor (name: string)
      ensures latestMessage == 1 && this.name == name && mail == map[]
    {
      latestMessage := 1;
      this.name := name;
      mail := map[];
    }

    /**
     * `Update`: connect, request `cursor:*`, and merge every response item
     * that has a UID and a readable header, batch by batch in arrival order.
     * `connect` and `newSeqSet` give the failure of those steps, if any;
     * `uidFetch` the batches `cmd.Data` holds after each `Recv`.
     */
    method Update(connect: Option<string>, newSeqSet: string -> Option<string>,
                  uidFetch: string -> Result<seq<seq<ResponseItem>>>, readMessage: MessageReader)
      returns (r: Result<seq<Email>>)
      modifies this
      ensures var wanted := SeqSetSpec(old(latestMessage));
        var failed := connect.Some? || newSeqSet(wanted).Some? || uidFetch(wanted).Err?;
        && (failed ==> r.Err? && latestMessage == old(latestMessage) && mail == old(mail))
        && (connect.Some? ==> r == Err(connect.value))
        && (connect.None? && newSeqSet(wanted).Some? ==> r == Err(newSeqSet(wanted).value))
        && (connect.None? && newSeqSet(wanted).None? && uidFetch(wanted).Err? ==> r == Err(uidFetch(wanted).error))
        && (!failed ==>
              var acc := AcceptedIn(Items(uidFetch(wanted).value), readMessage);
              && r.Ok? && |r.value| == |acc|
              && (forall i :: 0 <= i < |acc| ==>
                    && fresh(r.value[i])
                    && r.value[i].uid == acc[i].uid
                    && r.value[i].message == HeaderNode(acc[i].header)
                    && r.value[i].bodyData == None)
              && latestMessage == Cursor(old(latestMessage), acc)
              && mail == old(mail) + Index(r.value))
    {
      if connect.Some? {
        return Err(connect.value);
      }
      // selecting the mailbox is left out: its result is ignored
      var lastHad := latestMessage;
      var wanted := SeqSetSpec(lastHad);
      var setErr := newSeqSet(wanted);
      if setErr.Some? {
        return Err(setErr.value);
      }
      var fetched := uidFetch(wanted);
      if fetched.Err? {
        return Err(fetched.error);
      }
      var batches := fetched.value;
      var newMail: seq<Email> := [];
      var b := 0;
      while b < |batches|
        invariant 0 <= b <= |batches|
        invariant forall k :: 0 <= k < |newMail| ==> fresh(newMail[k])
        invariant Synced(newMail, AcceptedIn(Items(batches[..b]), readMessage), old(latestMessage), old(mail))
      {
        ItemsStep(batches, b);
        AcceptedInConcat(Items(batches[..b]), batches[b], readMessage);
        ghost var prior := newMail;
        newMail := MergeBatch(batches[b], readMessage, newMail, AcceptedIn(Items(batches[..b]), readMessage),
                              old(latestMessage), old(mail));
        forall k | 0 <= k < |newMail| ensures fresh(newMail[k]) {
          if k < |prior| {
            assert newMail[k] == prior[k];
          }
        }
        b := b + 1;
      }
      assert batches[..|batches|] == batches;
      RecordsEach(newMail, AcceptedIn(Items(batches), readMessage));
      return Ok(newMail);
    }

    /** Keeping one item: advance the cursor, make its email, index it by UID. */
    method Admit(uid: uint32, h: Header, merged: seq<Email>,
                 ghost kept: seq<Accepted>, ghost cursor: uint32, ghost base: map<uint32, Email>)
      returns (extended: seq<Email>)
      requires Synced(merged, kept, cursor, base)
      modifies this
      ensures |extended| == |merged| + 1 && extended == merged + [extended[|merged|]] && fresh(extended[|merged|])
      ensures Synced(extended, kept + [Accepted(uid, h)], cursor, base)
    {
      latestMessage := uid;
      var email := new Email(uid, HeaderNode(h));
      IndexAppend(merged, email);
      UnionUpdate(base, Index(merged), uid, email);
      RecordsExtend(merged, kept, email, Accepted(uid, h));
      extended := merged + [email];
      mail := mail[uid := email];
    }

    /**
     * The body of `Update`'s receive loop: merge one batch of response items,
     * appending to `newMail` the emails made from the items kept.
     */
    method MergeBatch(data: seq<ResponseItem>, readMessage: MessageReader, newMail: seq<Email>,
                      ghost acc: seq<Accepted>, ghost cursor: uint32, ghost base: map<uint32, Email>)
      returns (merged: seq<Email>)
      requires Synced(newMail, acc, cursor, base)
      modifies this
      ensures |merged| >= |newMail| && forall k :: 0 <= k < |newMail| ==> merged[k] == newMail[k]
      ensures forall k :: |newMail| <= k < |merged| ==> fresh(merged[k])
      ensures Synced(merged, acc + AcceptedIn(data, readMessage), cursor, base)
    {
      merged := newMail;
      ghost var kept := acc;
      ghost var added: seq<Email> := [];
      var i := 0;
      while i < |data|
        invariant 0 <= i <= |data|
        invariant kept == acc + AcceptedIn(data[..i], readMessage)
        invariant merged == newMail + added
        invariant forall k :: 0 <= k < |added| ==> fresh(added[k])
        invariant Synced(merged, kept, cursor, base)
      {
        // a UID attribute and a readable header, as `Accept` decides
        var accepted := Accept(data[i], readMessage);
        KeptStep(acc, data, i, readMessage);
        if accepted.Some? {
          ghost var prior := merged;
          merged := Admit(accepted.value.uid, accepted.value.header, merged, kept, cursor, base);
          ghost var email := merged[|prior|];
          ghost var before := added;
          added := added + [email];
          assert forall k :: 0 <= k < |before| ==> added[k] == before[k];
          kept := kept + [accepted.value];
        }
        i := i + 1;
      }
      assert data[..|data|] == data;
    }
  }

  /**
   * After a successful `Update` the map holds the old UIDs and the returned
   * ones; a returned UID maps to the last email returned with it, and an
   * entry whose UID was not returned is the one it had before.
   */
  lemma MergeKeepsOtherEntries(before: map<uint32, Email>, returned: seq<Email>)
    ensures (before + Index(returned)).Keys == before.Keys + set e <- returned :: e.uid
    ensures forall u :: u in before && u !in (set e <- returned :: e.uid) ==> (before + Index(returned))[u] == before[u]
    ensures forall e <- returned :: (before + Index(returned))[e.uid] in returned
  {
    IndexCovers(returned);
  }
}
