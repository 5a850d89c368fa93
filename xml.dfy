/**
 * An abstract ElementTree document. No parser is involved: a parsed file is the list
 * of its elements in document order (the order `tree.iter()` visits them), each with its
 * depth below the root, so that the nesting is still known where it matters.
 */
module Xml {

  datatype Option<+T> = None | Some(value: T)

  /** One element: its tag, its attribute map, its optional text and how deep it sits (the root is 0). */
  datatype Node = Node(tag: string, attrib: map<string, string>, text: Option<string>, depth: nat)

  /** A parsed file: its elements in document order. */
  type Doc = seq<Node>

  /** What reading a file gives: a document, or a parse error. */
  datatype Content = Parsed(doc: Doc) | Unparsable

  /** A file under the decoded `res` directory, as a directory walk yields it. */
  datatype ResFile = ResFile(dir: string, name: string, content: Content)

  /** The decoded `AndroidManifest.xml`: its content and the URI bound to the `android` prefix, if any. */
  datatype Manifest = Manifest(content: Content, androidUri: Option<string>)

  /** The elements that `getroot()` iterates over: the direct children of the root. */
  predicate IsRootChild(n: Node) {
    n.depth == 1
  }

  /** Element `j` sits directly under element `a`. */
  predicate IsChildOf(d: Doc, j: int, a: int) {
    && 0 <= a < j < |d|
    && d[j].depth == d[a].depth + 1
    && forall k :: a < k < j ==> d[k].depth > d[a].depth
  }

  /** Element `i` is element `r` or one of its descendants. */
  predicate InSubtree(d: Doc, r: int, i: int) {
    && 0 <= r <= i < |d|
    && forall k :: r < k <= i ==> d[k].depth > d[r].depth
  }
}
