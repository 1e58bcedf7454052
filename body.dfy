/**
 * Body extraction: the recursive walk `getBody` over a Gmail message payload, a tree of MIME parts.
 * Each node may hold base64 `body.data` and may hold an ordered list of child `parts`. Decoding
 * base64 to UTF-8 text is the parameter `decode`; `None` stands for a decoder that throws.
 */
module Body {
  import opened Wrappers

  datatype Node = Node(data: Option<string>, parts: Parts)

  /** `payload.parts`: absent, or an array of child nodes (possibly empty). */
  datatype Parts = Absent | Present(list: seq<Node>)

  /** The node's own text: its non-empty `body.data` decoded, or "" when absent or undecodable. */
  function OwnText(decode: string -> Option<string>, n: Node): string
  {
    if n.data.Some? && n.data.value != "" then
      match decode(n.data.value)
      case Some(text) => text
      case None => ""
    else ""
  }

  /** `getBody` on a present payload: the first part that yields text, else the node's own text. */
  function BodyOf(decode: string -> Option<string>, n: Node): string
    decreases n, 1, 0
  {
    var fromParts := if n.parts.Present? then FirstOfParts(decode, n, 0) else "";
    if fromParts != "" then fromParts else OwnText(decode, n)
  }

  /** The loop over `payload.parts` from index `i` on. */
  function FirstOfParts(decode: string -> Option<string>, n: Node, i: nat): string
    requires n.parts.Present? && i <= |n.parts.list|
    decreases n, 0, |n.parts.list| - i
  {
    var ps := n.parts.list;
    if i == |ps| then ""
    else
      var first := BodyOf(decode, ps[i]);
      if first != "" then first else FirstOfParts(decode, n, i + 1)
  }

  /**
   * The loop over the parts from index `i` on yields the text of the first part whose walk yields
   * non-empty text, and "" exactly when no part does.
   */
  lemma {:induction false} FirstOfPartsIsFirst(decode: string -> Option<string>, n: Node, i: nat)
    requires n.parts.Present? && i <= |n.parts.list|
    ensures var r, ps := FirstOfParts(decode, n, i), n.parts.list;
      && (r == "" <==> forall j :: i <= j < |ps| ==> BodyOf(decode, ps[j]) == "")
      && (r != "" ==> exists k :: i <= k < |ps| && r == BodyOf(decode, ps[k])
                                 && forall j :: i <= j < k ==> BodyOf(decode, ps[j]) == "")
    decreases |n.parts.list| - i
  {
    var ps := n.parts.list;
    if i < |ps| {
      if BodyOf(decode, ps[i]) == "" {
        FirstOfPartsIsFirst(decode, n, i + 1);
        var r := FirstOfParts(decode, n, i + 1);
        if r != "" {
          var k :| i + 1 <= k < |ps| && r == BodyOf(decode, ps[k])
                   && forall j :: i + 1 <= j < k ==> BodyOf(decode, ps[j]) == "";
          assert forall j :: i <= j < k ==> BodyOf(decode, ps[j]) == "";
        }
      }
    }
  }

  /** `getBody(payload)`: "" for a missing payload. */
  function GetBody(decode: string -> Option<string>, payload: Option<Node>): (r: string)
    ensures payload.None? ==> r == ""
  {
    match payload
    case None => ""
    case Some(n) => BodyOf(decode, n)
  }

  // A reference definition: the texts of all nodes in post-order (children left to right, then the
  // node itself), and the first non-empty one among them.

  function FirstNonEmpty(texts: seq<string>): (r: string)
    ensures r == "" <==> forall i :: 0 <= i < |texts| ==> texts[i] == ""
  {
    if texts == [] then ""
    else if texts[0] != "" then texts[0]
    else
      assert forall i :: 1 <= i < |texts| ==> texts[i] == texts[1..][i - 1];
      FirstNonEmpty(texts[1..])
  }

  function PostOrderTexts(decode: string -> Option<string>, n: Node): seq<string>
    decreases n, 1, 0
  {
    (if n.parts.Present? then PartsPostOrderTexts(decode, n, 0) else []) + [OwnText(decode, n)]
  }

  function PartsPostOrderTexts(decode: string -> Option<string>, n: Node, i: nat): seq<string>
    requires n.parts.Present? && i <= |n.parts.list|
    decreases n, 0, |n.parts.list| - i
  {
    if i == |n.parts.list| then []
    else PostOrderTexts(decode, n.parts.list[i]) + PartsPostOrderTexts(decode, n, i + 1)
  }

  lemma {:induction false} FirstNonEmptyAppend(a: seq<string>, b: seq<string>)
    ensures FirstNonEmpty(a + b) == if FirstNonEmpty(a) != "" then FirstNonEmpty(a) else FirstNonEmpty(b)
  {
    if a != [] {
      assert (a + b)[1..] == a[1..] + b;
      FirstNonEmptyAppend(a[1..], b);
    } else {
      assert a + b == b;
    }
  }

  /** `getBody` returns the first non-empty text of the payload tree in post-order. */
  lemma {:induction false} BodyIsFirstInPostOrder(decode: string -> Option<string>, n: Node)
    ensures BodyOf(decode, n) == FirstNonEmpty(PostOrderTexts(decode, n))
    decreases n, 1, 0
  {
    var own := [OwnText(decode, n)];
    if n.parts.Present? {
      PartsAreFirstInPostOrder(decode, n, 0);
      FirstNonEmptyAppend(PartsPostOrderTexts(decode, n, 0), own);
    } else {
      assert PostOrderTexts(decode, n) == [] + own;
    }
  }

  lemma {:induction false} PartsAreFirstInPostOrder(decode: string -> Option<string>, n: Node, i: nat)
    requires n.parts.Present? && i <= |n.parts.list|
    ensures FirstOfParts(decode, n, i) == FirstNonEmpty(PartsPostOrderTexts(decode, n, i))
    decreases n, 0, |n.parts.list| - i
  {
    if i < |n.parts.list| {
      var child := n.parts.list[i];
      BodyIsFirstInPostOrder(decode, child);
      PartsAreFirstInPostOrder(decode, n, i + 1);
      FirstNonEmptyAppend(PostOrderTexts(decode, child), PartsPostOrderTexts(decode, n, i + 1));
    }
  }
}
