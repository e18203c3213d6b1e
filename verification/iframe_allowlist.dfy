/** The iframe allow-list check run on new rich-text content before a
    rich-text profile section is updated (`validate_iframe_src!` in
    app/controllers/profile_sections_controller.rb).

    Rich-text content is an ordered list of nodes. Only nodes of type
    "raw" (embedded HTML) are inspected: each must contain an iframe whose
    `src`, stripped of surrounding whitespace, starts with the iframely
    embed prefix. HTML parsing is not modelled: a node carries the first
    iframe the parser finds in its `attrs.html`, if any. */
module IframeAllowlist {
  import opened Wrappers
  import opened RubyString

  /** The only iframe source accepted in raw HTML (exact, case-sensitive). */
  const AllowedSrcPrefix: string := "https://cdn.iframe.ly/api/iframe?url="

  /** The node type whose HTML is checked. */
  const RawType: string := "raw"

  /** The first iframe element found in a node's HTML; `src` is None when
      the element has no `src` attribute. */
  datatype Iframe = Iframe(src: Option<string>)

  /** A rich-text content node: its `type` tag and, standing for its
      `attrs`, the first iframe in `attrs.html` (None when the HTML has no
      iframe, including when `attrs.html` is missing). */
  datatype Node = Node(nodeType: string, firstIframe: Option<Iframe>)

  type Content = seq<Node>

  /** The `src` test: Ruby's `to_s` turns a missing attribute into "",
      then the value is stripped and must start with the prefix. A
      missing `src` therefore never passes, nor does one shorter than the
      prefix. */
  predicate SrcAllowed(src: Option<string>): (b: bool)
    ensures b ==> src.Some? && |src.value| >= |AllowedSrcPrefix|
  {
    StartsWith(Strip(src.GetOr("")), AllowedSrcPrefix)
  }

  /** What one node must satisfy: non-raw nodes are skipped; a raw node
      needs an iframe whose `src` is allowed. This is the per-node
      reference the check's contract is stated against. */
  predicate NodePasses(n: Node) {
    n.nodeType != RawType || (n.firstIframe.Some? && SrcAllowed(n.firstIframe.value.src))
  }

  /** The check, walking the nodes in order and stopping at the first
      failing one. It holds exactly when every node passes. */
  function ValidateIframeSrc(content: Content): (ok: bool)
    ensures ok <==> forall i :: 0 <= i < |content| ==> NodePasses(content[i])
  {
    if |content| == 0 then
      true
    else if content[0].nodeType != RawType then
      ValidateIframeSrc(content[1..])
    else if content[0].firstIframe.None? then
      false
    else if !SrcAllowed(content[0].firstIframe.value.src) then
      false
    else
      ValidateIframeSrc(content[1..])
  }

  /** A `src` is allowed exactly when it is present and, after its leading
      whitespace, begins with the prefix; trailing whitespace never
      matters because the prefix ends in a non-whitespace character. */
  lemma SrcAllowedIff(src: Option<string>)
    ensures SrcAllowed(src) <==> src.Some? && StartsWith(StripLeading(src.value), AllowedSrcPrefix)
  {
    StartsWithSurvivesStripTrailing(StripLeading(src.GetOr("")), AllowedSrcPrefix);
  }

  /** A raw node passes exactly when its HTML has an iframe with a `src`
      that, after its leading whitespace, begins with the prefix. */
  lemma RawNodePassesIff(n: Node)
    requires n.nodeType == RawType
    ensures NodePasses(n) <==> n.firstIframe.Some? && n.firstIframe.value.src.Some?
                               && StartsWith(StripLeading(n.firstIframe.value.src.value), AllowedSrcPrefix)
  {
    if n.firstIframe.Some? {
      SrcAllowedIff(n.firstIframe.value.src);
    }
  }

  /** Any `src` made of whitespace, the prefix, then anything, is allowed. */
  lemma PaddedPrefixAllowed(w: string, rest: string)
    requires AllWhitespace(w)
    ensures SrcAllowed(Some(w + AllowedSrcPrefix + rest))
  {
    assert w + AllowedSrcPrefix + rest == w + (AllowedSrcPrefix + rest);
    StripLeadingPadded(w, AllowedSrcPrefix + rest);
    StartsWithSurvivesStripTrailing(AllowedSrcPrefix + rest, AllowedSrcPrefix);
  }

  /** A missing `src` is turned into "" and refused, like an empty one. */
  lemma MissingSrcRejected()
    ensures !SrcAllowed(None)
    ensures !SrcAllowed(Some(""))
  {
  }

  /** A `src` that starts with a non-whitespace character and differs from
      the prefix at some position within the prefix's length is refused. */
  lemma MismatchRejected(s: string, k: nat)
    requires |s| > 0 && !IsWhitespace(s[0])
    requires k < |AllowedSrcPrefix| && k < |s| && s[k] != AllowedSrcPrefix[k]
    ensures !SrcAllowed(Some(s))
  {

  }

  /** A different scheme, a different letter case, and another host are
      all refused. */
  lemma ForeignSrcExamples()
    ensures !SrcAllowed(Some("http://cdn.iframe.ly/"))
    ensures !SrcAllowed(Some("HTTPS://cdn.iframe.ly/"))
    ensures !SrcAllowed(Some("https://evil.example/"))
  {

  }

  /** Empty content, and content without raw nodes, always passes. */
  lemma NoRawNodesPasses(content: Content)
    requires forall i :: 0 <= i < |content| ==> content[i].nodeType != RawType
    ensures ValidateIframeSrc(content)
  {
  }

  /** A non-raw node never affects the result, whatever its attributes. */
  lemma NonRawNodeIrrelevant(a: Content, n: Node, b: Content)
    requires n.nodeType != RawType
    ensures ValidateIframeSrc(a + [n] + b) == ValidateIframeSrc(a + b)
  {
    var with, without := a + [n] + b, a + b;
    if ValidateIframeSrc(without) {
      forall i | 0 <= i < |with| ensures NodePasses(with[i]) {
        if i < |a| {
          assert with[i] == without[i];
        } else if i > |a| {
          assert with[i] == without[i - 1];
        }
      }
    }
    if ValidateIframeSrc(with) {
      forall i | 0 <= i < |without| ensures NodePasses(without[i]) {
        if i < |a| {
          assert without[i] == with[i];
        } else {
          assert without[i] == with[i + 1];
        }
      }
    }
  }

  /** One failing node anywhere makes the whole content fail. */
  lemma FailingNodeFails(a: Content, n: Node, b: Content)
    requires !NodePasses(n)
    ensures !ValidateIframeSrc(a + [n] + b)
  {
    assert (a + [n] + b)[|a|] == n;
  }

  /** In particular, a raw node without an iframe, or whose iframe has no
      `src`, makes the whole content fail. */
  lemma RawNodeWithoutAllowedIframeFails(a: Content, n: Node, b: Content)
    requires n.nodeType == RawType
    requires n.firstIframe.None? || n.firstIframe.value.src.None?
    ensures !ValidateIframeSrc(a + [n] + b)
  {
    MissingSrcRejected();
    FailingNodeFails(a, n, b);
  }

  /** Concatenated content passes exactly when both parts pass. */
  lemma ConcatValidates(a: Content, b: Content)
    ensures ValidateIframeSrc(a + b) <==> ValidateIframeSrc(a) && ValidateIframeSrc(b)
  {
    var ab := a + b;
    if ValidateIframeSrc(ab) {
      forall i | 0 <= i < |a| ensures NodePasses(a[i]) {
        assert a[i] == ab[i];
      }
      forall i | 0 <= i < |b| ensures NodePasses(b[i]) {
        assert b[i] == ab[|a| + i];
      }
    }
  }

  /** A single raw node embedding an iframely URL passes. */
  lemma AllowedEmbedExample()
    ensures ValidateIframeSrc([Node(RawType, Some(Iframe(Some("https://cdn.iframe.ly/api/iframe?url=X"))))])
  {
    var src := "https://cdn.iframe.ly/api/iframe?url=X";
    assert src == [] + AllowedSrcPrefix + "X";
    PaddedPrefixAllowed([], "X");
  }

  /** A raw node whose `src` is the prefix padded with whitespace passes
      behind any non-raw node, whatever iframe that node's attributes hold. */
  lemma PaddedEmbedBehindOtherNode(other: Node, w: string, rest: string)
    requires other.nodeType != RawType
    requires AllWhitespace(w)
    ensures ValidateIframeSrc([other, Node(RawType, Some(Iframe(Some(w + AllowedSrcPrefix + rest))))])
  {
    PaddedPrefixAllowed(w, rest);
  }
}
