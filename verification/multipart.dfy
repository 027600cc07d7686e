/**
 * app/models/multipart.go: turning a header plus body into a tree of
 * MIME parts (section 5.1 of RFC 2046), and rendering the per-child errors
 * collected on the way as an indented text tree.
 */
module Multipart {
  import opened Wrappers
  import opened Text
  import opened Mime

  const ContentType: string := "Content-Type"
  /** The boundary is read from a header literally named "Boundry", not from a Content-Type parameter. */
  const Boundry: string := "Boundry"
  const TypeMultipart: string := "multipart"
  const ChildErrorIndent: string := "  |  "

  predicate StartsWith(s: string, prefix: string)
  {
    |prefix| <= |s| && s[..|prefix|] == prefix
  }

  /** `IsMultipartType`: the content type parses and its media type matches `^multipart`. */
  function IsMultipartType(parse: MediaParser, contentType: string): (b: bool)
    ensures parse(contentType).Err? ==> !b
    ensures b <==> exists mt :: parse(contentType) == Ok(mt) && StartsWith(mt.mediaType, TypeMultipart)
  {
    match parse(contentType)
    case Err(_) => false
    case Ok(mt) => StartsWith(mt.mediaType, TypeMultipart)
  }

  // ---- the tree ----

  /** A node's `Body` reader: the one it was given, or the backup copy made before splitting. */
  datatype Body = Original(data: seq<byte>) | Backup(data: seq<byte>)

  /** `MessageNode`; `children == NilChildren` is a nil slice, `body == None` a nil reader. */
  datatype MessageNode = MessageNode(
    contentType: string,
    header: Header,
    children: Children,
    body: Option<Body>)

  /** A node's `Children` slice: nil, or the converted parts. */
  datatype Children = NilChildren | Kids(nodes: seq<MessageNode>)

  /** Exactly one of children and body is set, in this node and every node below it. */
  ghost predicate WellShaped(n: MessageNode)
    decreases n
  {
    && (n.children.Kids? != n.body.Some?)
    && match n.children
       case NilChildren => true
       case Kids(cs) => forall c <- cs :: WellShaped(c)
  }

  // ---- errors ----

  /** One entry of a `ChildError` map: the failing child (by position in `Children`) and its error. */
  datatype ChildFailure = ChildFailure(child: nat, error: ParseError)

  /**
   * The errors `MessageToNode` returns. `ChildErrors` is the `ChildError` map;
   * its entries are kept in child order, one valid enumeration of the map.
   */
  datatype ParseError =
    | NoBoundary(contentType: string)
    | Aborted(cause: string)
    | ChildErrors(entries: seq<ChildFailure>)

  /** The first line of a rendered `ChildError`, without its newline. */
  function HeaderLine(n: nat): (line: string)
    ensures '\n' !in line
  {
    "Errors [" + DecimalString(n) + "] encountered while converting children:"
  }

  /** Every line of `s`, prefixed with the indent, joined back with newlines. */
  function Indent(s: string): string
  {
    Join(Prefixed(Split(s)))
  }

  function Prefixed(lines: seq<string>): (r: seq<string>)
    ensures |r| == |lines|
  {
    seq(|lines|, i requires 0 <= i < |lines| => ChildErrorIndent + lines[i])
  }

  /** `error.Error()` for each kind of error `MessageToNode` produces. */
  function ErrorText(e: ParseError): (text: string)
    ensures e.ChildErrors? ==> StartsWith(text, HeaderLine(|e.entries|) + "\n")
    ensures e.ChildErrors? && e.entries == [] ==> text == HeaderLine(0) + "\n"
    decreases e
  {
    match e
    case NoBoundary(ct) => "No boundry given for TypeMultipart " + ct
    case Aborted(cause) => "Aborted Multipart#NextPart at error: " + cause
    case ChildErrors(entries) =>
      HeaderLine(|entries|) + "\n" + Join(seq(|entries|, i requires 0 <= i < |entries| => Indent(ErrorText(entries[i].error))))
  }

  /** The inner loop of `ChildError.Error`: split a child's text into lines and prefix each in place. */
  method IndentText(s: string) returns (t: string)
    ensures t == Indent(s)
  {
    var pieces := Split(s);
    var lines := new string[|pieces|](i requires 0 <= i < |pieces| => pieces[i]);
    var i := 0;
    while i < lines.Length
      modifies lines
      invariant 0 <= i <= lines.Length
      invariant forall k :: 0 <= k < i ==> lines[k] == ChildErrorIndent + pieces[k]
      invariant forall k :: i <= k < lines.Length ==> lines[k] == pieces[k]
    {
      lines[i] := ChildErrorIndent + lines[i];
      i := i + 1;
    }
    assert lines[..] == Prefixed(pieces);
    t := Join(lines[..]);
  }

  /** `ChildError.Error`: the header, then each child's text with every line indented. */
  method ChildErrorText(entries: seq<ChildFailure>) returns (text: string)
    ensures text == ErrorText(ChildErrors(entries))
  {
    var ret := HeaderLine(|entries|) + "\n";
    var subErrors := new string[|entries|];
    var j := 0;
    while j < |entries|
      invariant 0 <= j <= |entries|
      invariant forall k :: 0 <= k < j ==> subErrors[k] == Indent(ErrorText(entries[k].error))
    {
      subErrors[j] := IndentText(ErrorText(entries[j].error));
      j := j + 1;
    }
    text := ret + Join(subErrors[..]);
    assert subErrors[..] == seq(|entries|, i requires 0 <= i < |entries| => Indent(ErrorText(entries[i].error)));
  }

  /** Indenting a text prefixes each of its lines, and adds no line. */
  lemma IndentLines(s: string)
    ensures Split(Indent(s)) == Prefixed(Split(s))
  {
    SplitLinesHaveNoNewline(s);
    var p := Prefixed(Split(s));
    forall l <- p ensures '\n' !in l {
      var i :| 0 <= i < |p| && p[i] == l;
      assert l == ChildErrorIndent + Split(s)[i];
    }
    SplitJoin(p);
  }

  /**
   * The lines of a rendered `ChildError` with at least one entry: the header
   * line, then every line of every entry's own text, prefixed once more, entry
   * by entry. Applied again to a nested `ChildError`, its lines gain one more
   * prefix per level.
   */
  lemma ChildErrorLines(entries: seq<ChildFailure>)
    requires |entries| > 0
    ensures Split(ErrorText(ChildErrors(entries)))
         == [HeaderLine(|entries|)] + Concat(seq(|entries|, i requires 0 <= i < |entries| => Prefixed(Split(ErrorText(entries[i].error)))))
  {
    var blocks := seq(|entries|, i requires 0 <= i < |entries| => Indent(ErrorText(entries[i].error)));
    SplitAroundNewline(HeaderLine(|entries|), Join(blocks));
    SplitSingleLine(HeaderLine(|entries|));
    SplitJoinBlocks(blocks);
    forall i | 0 <= i < |entries|
      ensures Split(blocks[i]) == Prefixed(Split(ErrorText(entries[i].error)))
    {
      IndentLines(ErrorText(entries[i].error));
    }
    assert seq(|blocks|, i requires 0 <= i < |blocks| => Split(blocks[i]))
        == seq(|entries|, i requires 0 <= i < |entries| => Prefixed(Split(ErrorText(entries[i].error))));
  }

  /** A `ChildError` with no entries renders as its header and one empty line after it. */
  lemma EmptyChildErrorLines()
    ensures Split(ErrorText(ChildErrors([]))) == [HeaderLine(0), ""]
  {
    SplitAroundNewline(HeaderLine(0), "");
    SplitSingleLine(HeaderLine(0));
  }

  // ---- building the tree ----

  /** The result of one `MessageToNode` call: always a node, sometimes an error too. */
  datatype Conversion = Conversion(node: MessageNode, error: Option<ParseError>)

  /** The node `MessageToNode` starts from: content type, header and the given body. */
  function StartNode(header: Header, body: seq<byte>): MessageNode
  {
    MessageNode(Get(header, ContentType), header, NilChildren, Some(Original(body)))
  }

  /**
   * The `ChildError` entries for children `kids`, the first of which sits at
   * position `offset`: the failing children, in child order.
   */
  function Failures(kids: seq<Conversion>, offset: nat): (fs: seq<ChildFailure>)
    ensures |fs| <= |kids|
    decreases |kids|
  {
    if kids == [] then []
    else
      var rest := Failures(kids[1..], offset + 1);
      match kids[0].error
      case None => rest
      case Some(e) => [ChildFailure(offset, e)] + rest
  }

  /** Every entry names a child that failed, with that child's error. */
  lemma {:induction false} FailuresSound(kids: seq<Conversion>, offset: nat)
    ensures forall f <- Failures(kids, offset) ::
      offset <= f.child < offset + |kids| && kids[f.child - offset].error == Some(f.error)
    decreases |kids|
  {
    if kids != [] {
      FailuresSound(kids[1..], offset + 1);
    }
  }

  /** Entries follow child order, so no child has two. */
  lemma {:induction false} FailuresOrdered(kids: seq<Conversion>, offset: nat)
    ensures forall j, k :: 0 <= j < k < |Failures(kids, offset)| ==>
      Failures(kids, offset)[j].child < Failures(kids, offset)[k].child
    decreases |kids|
  {
    if kids != [] {
      FailuresOrdered(kids[1..], offset + 1);
      FailuresSound(kids[1..], offset + 1);
      var rest := Failures(kids[1..], offset + 1);
      var fs := Failures(kids, offset);
      if kids[0].error.Some? {
        assert fs == [ChildFailure(offset, kids[0].error.value)] + rest;
        forall j, k | 0 <= j < k < |fs| ensures fs[j].child < fs[k].child {
          assert fs[k] == rest[k - 1] && rest[k - 1] in rest;
          if j > 0 {
            assert fs[j] == rest[j - 1];
          }
        }
      } else {
        assert fs == rest;
      }
    }
  }

  /** Every failing child has its entry. */
  lemma {:induction false} FailuresComplete(kids: seq<Conversion>, offset: nat)
    ensures forall i :: 0 <= i < |kids| && kids[i].error.Some? ==>
      ChildFailure(offset + i, kids[i].error.value) in Failures(kids, offset)
    decreases |kids|
  {
    if kids != [] {
      FailuresComplete(kids[1..], offset + 1);
      forall i | 1 <= i < |kids| ensures kids[i] == kids[1..][i - 1] {}
    }
  }

  /** The `ChildError` for a list of children, or no error when none of them failed. */
  function ChildErrorOf(kids: seq<Conversion>): (e: Option<ParseError>)
    ensures e.None? <==> forall i :: 0 <= i < |kids| ==> kids[i].error.None?
    ensures e.Some? ==> e.value.ChildErrors?
  {
    var fs := Failures(kids, 0);
    FailuresSound(kids, 0);
    FailuresComplete(kids, 0);
    if fs == [] then None
    else
      assert fs[0] in fs;
      Some(ChildErrors(fs))
  }

  /** The nodes of a list of conversions. */
  function Nodes(kids: seq<Conversion>): (ns: seq<MessageNode>)
    ensures |ns| == |kids| && forall i :: 0 <= i < |kids| ==> ns[i] == kids[i].node
  {
    seq(|kids|, i requires 0 <= i < |kids| => kids[i].node)
  }

  /** `MessageToNode`, with the nil placeholder part left out of the children (see the as-written version below). */
  function MessageToNode(parse: MediaParser, split: Splitter, header: Header, body: seq<byte>): (r: Conversion)
    ensures r.node.contentType == Get(header, ContentType) && r.node.header == header
    ensures WellShaped(r.node)
    decreases |body|, 1
  {
    var ct := Get(header, ContentType);
    var node := StartNode(header, body);
    if !IsMultipartType(parse, ct) then Conversion(node, None)
    else
      var boundry := Get(header, Boundry);
      if boundry == "" then Conversion(node, Some(NoBoundary(ct)))
      else
        var s := split(body, boundry);
        if s.failure.Some? then Conversion(node.(body := Some(Backup(body))), Some(Aborted(s.failure.value)))
        else
          assert PartsWithin(body, s);
          var kids := ConvertParts(parse, split, s.parts, |body|);
          Conversion(node.(children := Kids(Nodes(kids)), body := None), ChildErrorOf(kids))
  }

  /** The loop `for i, part := range parts`: one conversion per part, in order. */
  function ConvertParts(parse: MediaParser, split: Splitter, parts: seq<Part>, bound: nat): (kids: seq<Conversion>)
    requires forall p <- parts :: |p.body| < bound
    ensures |kids| == |parts|
    ensures forall i :: 0 <= i < |parts| ==> kids[i] == MessageToNode(parse, split, parts[i].header, parts[i].body)
    ensures forall i :: 0 <= i < |parts| ==> WellShaped(kids[i].node)
    decreases bound, 0, |parts|
  {
    if parts == [] then []
    else
      assert parts[0] in parts;
      [MessageToNode(parse, split, parts[0].header, parts[0].body)] + ConvertParts(parse, split, parts[1..], bound)
  }

  /** A content type that is not multipart gives a leaf holding the body, and no error. */
  lemma NotMultipartIsLeaf(parse: MediaParser, split: Splitter, header: Header, body: seq<byte>)
    requires !IsMultipartType(parse, Get(header, ContentType))
    ensures MessageToNode(parse, split, header, body)
         == Conversion(MessageNode(Get(header, ContentType), header, NilChildren, Some(Original(body))), None)
  {
  }

  /** A multipart type with no (or an empty) "Boundry" header keeps its body and reports the missing boundary. */
  lemma MissingBoundaryKeepsBody(parse: MediaParser, split: Splitter, header: Header, body: seq<byte>)
    requires IsMultipartType(parse, Get(header, ContentType))
    requires Get(header, Boundry) == ""
    ensures var r := MessageToNode(parse, split, header, body);
      && r.node == MessageNode(Get(header, ContentType), header, NilChildren, Some(Original(body)))
      && r.error == Some(NoBoundary(Get(header, ContentType)))
  {
  }

  /** A split that fails part way keeps no children: the node holds the backup copy of the whole body. */
  lemma AbortedSplitKeepsBackup(parse: MediaParser, split: Splitter, header: Header, body: seq<byte>)
    requires IsMultipartType(parse, Get(header, ContentType))
    requires Get(header, Boundry) != ""
    requires split(body, Get(header, Boundry)).failure.Some?
    ensures var r := MessageToNode(parse, split, header, body);
      && r.node == MessageNode(Get(header, ContentType), header, NilChildren, Some(Backup(body)))
      && r.error == Some(Aborted(split(body, Get(header, Boundry)).failure.value))
  {
  }

  /** The shape of `MessageToNode` after a clean split, in terms of the converted parts. */
  lemma CleanSplitUnfolds(parse: MediaParser, split: Splitter, header: Header, body: seq<byte>)
    requires IsMultipartType(parse, Get(header, ContentType))
    requires Get(header, Boundry) != ""
    requires split(body, Get(header, Boundry)).failure.None?
    ensures PartsWithin(body, split(body, Get(header, Boundry)))
    ensures var kids := ConvertParts(parse, split, split(body, Get(header, Boundry)).parts, |body|);
      MessageToNode(parse, split, header, body)
        == Conversion(StartNode(header, body).(children := Kids(Nodes(kids)), body := None), ChildErrorOf(kids))
  {
    assert PartsWithin(body, split(body, Get(header, Boundry)));
  }

  /**
   * A clean split: one child per part, in split order, each the conversion of
   * that part; the body is dropped; and the error is a `ChildError` exactly
   * when some child failed.
   */
  lemma CleanSplitChildren(parse: MediaParser, split: Splitter, header: Header, body: seq<byte>)
    requires IsMultipartType(parse, Get(header, ContentType))
    requires Get(header, Boundry) != ""
    requires split(body, Get(header, Boundry)).failure.None?
    ensures var parts := split(body, Get(header, Boundry)).parts;
      var r := MessageToNode(parse, split, header, body);
      && r.node.body == None
      && r.node.children.Kids? && |r.node.children.nodes| == |parts|
      && (forall i :: 0 <= i < |parts| ==>
            r.node.children.nodes[i] == MessageToNode(parse, split, parts[i].header, parts[i].body).node)
      && (r.error.None? <==> forall i :: 0 <= i < |parts| ==> MessageToNode(parse, split, parts[i].header, parts[i].body).error.None?)
      && (r.error.Some? ==> r.error.value.ChildErrors?)
  {
    CleanSplitUnfolds(parse, split, header, body);
  }

  /**
   * After a clean split the `ChildError` has exactly one entry per failing
   * child, holding that child's error.
   */
  lemma CleanSplitChildErrors(parse: MediaParser, split: Splitter, header: Header, body: seq<byte>)
    requires IsMultipartType(parse, Get(header, ContentType))
    requires Get(header, Boundry) != ""
    requires split(body, Get(header, Boundry)).failure.None?
    requires MessageToNode(parse, split, header, body).error.Some?
    ensures var parts := split(body, Get(header, Boundry)).parts;
      var es := MessageToNode(parse, split, header, body).error.value.entries;
      && (forall j :: 0 <= j < |es| ==>
            && es[j].child < |parts|
            && MessageToNode(parse, split, parts[es[j].child].header, parts[es[j].child].body).error == Some(es[j].error))
      && (forall j, k :: 0 <= j < k < |es| ==> es[j].child != es[k].child)
      && (forall i :: 0 <= i < |parts| && MessageToNode(parse, split, parts[i].header, parts[i].body).error.Some? ==>
            ChildFailure(i, MessageToNode(parse, split, parts[i].header, parts[i].body).error.value) in es)
  {
    CleanSplitUnfolds(parse, split, header, body);
    var s := split(body, Get(header, Boundry));
    var kids := ConvertParts(parse, split, s.parts, |body|);
    FailuresSound(kids, 0);
    FailuresOrdered(kids, 0);
    FailuresComplete(kids, 0);
    var es := Failures(kids, 0);
    assert forall j :: 0 <= j < |es| ==> es[j] in es;
  }

  // ---- the function as written ----

  /** A call that returns, or one that panics (a nil dereference). */
  datatype Outcome = Returned(conversion: Conversion) | Panicked

  /**
   * `MessageToNode` exactly as written: the parts slice collected by the
   * `NextPart` loop begins with the nil `sub_part` of the first pass, and the
   * recursion reads `part.Header` of every collected entry, nil or not.
   */
  function MessageToNodeAsWritten(parse: MediaParser, split: Splitter, header: Header, body: seq<byte>): (r: Outcome)
    ensures r.Returned? ==> r.conversion.node.header == header
    decreases |body|, 1
  {
    var ct := Get(header, ContentType);
    var node := StartNode(header, body);
    if !IsMultipartType(parse, ct) then Returned(Conversion(node, None))
    else
      var boundry := Get(header, Boundry);
      if boundry == "" then Returned(Conversion(node, Some(NoBoundary(ct))))
      else
        var s := split(body, boundry);
        match Collected(s, 0)
        case Err(e) => Returned(Conversion(node.(body := Some(Backup(body))), Some(Aborted(e))))
        case Ok(parts) =>
          assert PartsWithin(body, s);
          assert s.parts != [] ==> s.parts[0] in s.parts;
          assert forall p <- parts :: p.Some? ==> s.parts != [];
          ConvertAsWritten(parse, split, node, parts, |body|, [])
  }

  /**
   * The child loop as written, over the collected entries not yet converted,
   * with the conversions `done` so far; it ends by dropping the body and
   * returning the `ChildError`, or panics at the first nil entry.
   */
  function ConvertAsWritten(parse: MediaParser, split: Splitter, node: MessageNode,
                            parts: seq<Option<Part>>, bound: nat, done: seq<Conversion>): (r: Outcome)
    requires forall p <- parts :: p.Some? ==> |p.value.body| < bound
    ensures r.Returned? ==> r.conversion.node.header == node.header
    decreases bound, 0, |parts|
  {
    if parts == [] then Returned(Conversion(node.(children := Kids(Nodes(done)), body := None), ChildErrorOf(done)))
    else
      match parts[0]
      case None => Panicked
      case Some(p) =>
        assert parts[0] in parts;
        match MessageToNodeAsWritten(parse, split, p.header, p.body)
        case Panicked => Panicked
        case Returned(c) => ConvertAsWritten(parse, split, node, parts[1..], bound, done + [c])
  }

  /** As written, every clean split of a multipart body panics, whatever the parts. */
  lemma AsWrittenPanicsOnCleanSplit(parse: MediaParser, split: Splitter, header: Header, body: seq<byte>)
    requires IsMultipartType(parse, Get(header, ContentType))
    requires Get(header, Boundry) != ""
    requires split(body, Get(header, Boundry)).failure.None?
    ensures MessageToNodeAsWritten(parse, split, header, body) == Panicked
  {
    var s := split(body, Get(header, Boundry));
    assert Collected(s, 0).value[0] == None;
  }

  /** Everywhere else the as-written function agrees with the corrected one. */
  lemma AsWrittenAgreesOtherwise(parse: MediaParser, split: Splitter, header: Header, body: seq<byte>)
    requires !IsMultipartType(parse, Get(header, ContentType))
          || Get(header, Boundry) == ""
          || split(body, Get(header, Boundry)).failure.Some?
    ensures MessageToNodeAsWritten(parse, split, header, body) == Returned(MessageToNode(parse, split, header, body))
  {
  }
}
