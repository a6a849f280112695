/** Which messages `handle_message` sends for a successful response: the one-off
    web-search notice and the reply texts, derived from `response.output`. */
module Replies {
  import opened Responses
  import opened Sequences

  /** A message the bot sends with `reply_text`. The fixed wordings of the greeting,
      the search notice and the apology are opaque constants here. */
  datatype Outgoing = Greeting | SearchNotice | Text(text: string) | Apology

  /** Some item of the output is a `web_search_call`. */
  function HasWebSearch(items: seq<OutputItem>): bool
  {
    |items| > 0 && (items[0].WebSearchCall? || HasWebSearch(items[1..]))
  }

  /** HasWebSearch agrees with its reading as "there is an index holding a search call". */
  lemma {:induction false} HasWebSearchAt(items: seq<OutputItem>)
    ensures HasWebSearch(items) <==> exists i :: 0 <= i < |items| && items[i].WebSearchCall?
  {
    if |items| > 0 {
      var rest := items[1..];
      HasWebSearchAt(rest);
      if HasWebSearch(rest) {
        var i :| 0 <= i < |rest| && rest[i].WebSearchCall?;
        assert items[i + 1].WebSearchCall?;
      }
      if exists i :: 0 <= i < |items| && items[i].WebSearchCall? {
        var i :| 0 <= i < |items| && items[i].WebSearchCall?;
        if i > 0 {
          assert rest[i - 1].WebSearchCall?;
        }
      }
    }
  }

  /** The reply one content part contributes: its text if it is `output_text`, else nothing. */
  function PartReply(part: ContentPart): seq<Outgoing>
  {
    match part
    case OutputText(t) => [Text(t)]
    case OtherPart => []
  }

  /** The replies of the content parts of one message item, in part order. */
  function PartReplies(parts: seq<ContentPart>): (r: seq<Outgoing>)
    ensures forall k :: 0 <= k < |r| ==> r[k].Text?
  {
    if parts == [] then [] else PartReply(parts[0]) + PartReplies(parts[1..])
  }

  /** The replies one output item contributes. Only `message` items contribute; a
      message with empty content contributes nothing. */
  function ItemReplies(item: OutputItem): seq<Outgoing>
  {
    match item
    case Message(content) => PartReplies(content)
    case _ => []
  }

  /** The reply texts of a whole output, in item order and then part order. */
  function TextReplies(items: seq<OutputItem>): (r: seq<Outgoing>)
    ensures forall k :: 0 <= k < |r| ==> r[k].Text?
  {
    if items == [] then [] else ItemReplies(items[0]) + TextReplies(items[1..])
  }

  /** Every reply the handler means to send for a response's output, in order:
      the search notice first if any item is a search call, then the reply texts.
      A missing or empty output yields nothing. */
  function Planned(output: Option<seq<OutputItem>>): (r: seq<Outgoing>)
    ensures output.None? || output == Some([]) ==> r == []
    ensures forall k :: 0 <= k < |r| ==> r[k].SearchNotice? || r[k].Text?
    ensures forall k :: 0 <= k < |r| ==>
      (r[k] == SearchNotice <==> k == 0 && output.Some? && HasWebSearch(output.value))
    ensures output.Some? && HasWebSearch(output.value) ==> |r| > 0 && r[0] == SearchNotice
    ensures output.Some? ==>
      r[(if HasWebSearch(output.value) then 1 else 0)..] == TextReplies(output.value)
  {
    match output
    case None => []
    case Some(items) =>
      if |items| == 0 then []
      else (if HasWebSearch(items) then [SearchNotice] else []) + TextReplies(items)
  }

  lemma {:induction false} PartRepliesAppend(a: seq<ContentPart>, b: seq<ContentPart>)
    ensures PartReplies(a + b) == PartReplies(a) + PartReplies(b)
  {
    if a == [] {
      assert a + b == b;
    } else {
      DropFirst(a, b);
      PartRepliesAppend(a[1..], b);
      assert (a + b)[0] == a[0];
      Assoc(PartReply(a[0]), PartReplies(a[1..]), PartReplies(b));
    }
  }

  /** Replies of concatenated outputs are the concatenated replies: items never
      interfere with one another and their order is kept. */
  lemma {:induction false} TextRepliesAppend(a: seq<OutputItem>, b: seq<OutputItem>)
    ensures TextReplies(a + b) == TextReplies(a) + TextReplies(b)
  {
    if a == [] {
      assert a + b == b;
    } else {
      DropFirst(a, b);
      TextRepliesAppend(a[1..], b);
      assert (a + b)[0] == a[0];
      Assoc(ItemReplies(a[0]), TextReplies(a[1..]), TextReplies(b));
    }
  }

  /** Part `j` of a message contributes its reply after those of the parts before it
      and before those of the parts after it. */
  lemma {:induction false} PartRepliesSplit(parts: seq<ContentPart>, j: nat)
    requires j < |parts|
    ensures PartReplies(parts) ==
      PartReplies(parts[..j]) + PartReply(parts[j]) + PartReplies(parts[j + 1..])
  {
    var pre, x, post := parts[..j], [parts[j]], parts[j + 1..];
    assert parts == pre + x + post;
    PartRepliesAppend(pre + x, post);
    PartRepliesAppend(pre, x);
    assert PartReplies(x) == PartReply(parts[j]) + PartReplies([]);
  }

  /** Item `i` contributes its replies after those of the items before it and before
      those of the items after it. */
  lemma {:induction false} TextRepliesSplit(items: seq<OutputItem>, i: nat)
    requires i < |items|
    ensures TextReplies(items) ==
      TextReplies(items[..i]) + ItemReplies(items[i]) + TextReplies(items[i + 1..])
  {
    var pre, x, post := items[..i], [items[i]], items[i + 1..];
    assert items == pre + x + post;
    TextRepliesAppend(pre + x, post);
    TextRepliesAppend(pre, x);
    assert TextReplies(x) == ItemReplies(items[i]) + TextReplies([]);
  }

  /** A message's replies contain a text exactly when one of its parts is an
      `output_text` part with that text. */
  lemma {:induction false} PartRepliesFrom(parts: seq<ContentPart>, t: string)
    ensures Text(t) in PartReplies(parts) <==>
      exists j :: 0 <= j < |parts| && parts[j] == OutputText(t)
  {
    if parts != [] {
      var rest := parts[1..];
      PartRepliesFrom(rest, t);
      if Text(t) in PartReplies(rest) {
        var j :| 0 <= j < |rest| && rest[j] == OutputText(t);
        assert parts[j + 1] == OutputText(t);
      }
      if exists j :: 0 <= j < |parts| && parts[j] == OutputText(t) {
        var j :| 0 <= j < |parts| && parts[j] == OutputText(t);
        if j > 0 {
          assert rest[j - 1] == OutputText(t);
        }
      }
    }
  }

  /** The reply texts of an output are exactly the `output_text` parts of its
      `message` items: every such part is sent and nothing else is. */
  lemma {:induction false} TextRepliesFrom(items: seq<OutputItem>, t: string)
    ensures Text(t) in TextReplies(items) <==>
      exists i, j :: 0 <= i < |items| && items[i].Message? &&
        0 <= j < |items[i].content| && items[i].content[j] == OutputText(t)
  {
    if items != [] {
      var rest := items[1..];
      TextRepliesFrom(rest, t);
      if items[0].Message? {
        PartRepliesFrom(items[0].content, t);
      }
      if Text(t) in TextReplies(items) {
        if Text(t) in ItemReplies(items[0]) {
          var j :| 0 <= j < |items[0].content| && items[0].content[j] == OutputText(t);
        } else {
          assert Text(t) in TextReplies(rest);
          var i, j :| 0 <= i < |rest| && rest[i].Message? &&
            0 <= j < |rest[i].content| && rest[i].content[j] == OutputText(t);
          assert items[i + 1] == rest[i];
        }
      }
      if exists i, j :: 0 <= i < |items| && items[i].Message? &&
          0 <= j < |items[i].content| && items[i].content[j] == OutputText(t) {
        var i, j :| 0 <= i < |items| && items[i].Message? &&
          0 <= j < |items[i].content| && items[i].content[j] == OutputText(t);
        if i > 0 {
          assert rest[i - 1] == items[i];
        }
      }
    }
  }
}
