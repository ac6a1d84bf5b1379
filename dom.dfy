/** The few facts about page elements the extraction code looks at: an
    element's class list and its text, and the copier's own button container,
    which carries the class `zhihucopier-button`. */
module Dom {

  datatype Element = Element(classList: seq<string>, textContent: string)

  /** A child node: a text node or an element. */
  datatype Node = TextNode(data: string) | ElementNode(element: Element)

  const CopierButtonClass: string := "zhihucopier-button"

  /** `el.classList.contains("zhihucopier-button")` */
  predicate IsCopierButton(e: Element) {
    CopierButtonClass in e.classList
  }

  predicate IsButtonNode(n: Node) {
    n.ElementNode? && IsCopierButton(n.element)
  }

  /** `textContent` of a parent: the text of its children, concatenated in order. */
  function TextContent(nodes: seq<Node>): string
    decreases |nodes|
  {
    if nodes == [] then ""
    else
      (match nodes[0]
       case TextNode(t) => t
       case ElementNode(e) => e.textContent) + TextContent(nodes[1..])
  }
}
