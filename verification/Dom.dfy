/** The part of the document object model the selector engine looks at: one finite rooted
    tree, each node named by the child positions that lead to it from the root. */
module Dom {

  datatype Option<+T> = None | Some(value: T)

  const ELEMENT_NODE := 1

  datatype Tree = Node(nodeType: nat, kids: seq<Tree>)

  type Path = seq<nat>

  predicate In(t: Tree, p: Path) {
    p == [] || (p[0] < |t.kids| && In(t.kids[p[0]], p[1..]))
  }

  function At(t: Tree, p: Path): Tree
    requires In(t, p)
  {
    if p == [] then t else At(t.kids[p[0]], p[1..])
  }

  predicate IsElement(t: Tree, p: Path) {
    In(t, p) && At(t, p).nodeType == ELEMENT_NODE
  }

  function Last(p: Path): nat
    requires p != []
  {
    p[|p| - 1]
  }

  /** `parentNode` of a node other than the root. */
  function Up(p: Path): Path
    requires p != []
  {
    p[..|p| - 1]
  }

  function ParentNode(p: Path): Option<Path> {
    if p == [] then None else Some(Up(p))
  }

  function PreviousSibling(p: Path): Option<Path> {
    if p == [] || Last(p) == 0 then None else Some(Up(p) + [Last(p) - 1])
  }

  function NextSibling(t: Tree, p: Path): Option<Path> {
    if p == [] || !In(t, Up(p) + [Last(p) + 1]) then None else Some(Up(p) + [Last(p) + 1])
  }

  /** A node is in the tree exactly when its parent is and has that many children. */
  lemma {:induction false} InByParent(t: Tree, p: Path)
    requires p != []
    ensures In(t, p) <==> In(t, Up(p)) && Last(p) < |At(t, Up(p)).kids|
    ensures In(t, p) ==> At(t, p) == At(t, Up(p)).kids[Last(p)]
  {
    if |p| > 1 && p[0] < |t.kids| {
      InByParent(t.kids[p[0]], p[1..]);
      assert Up(p)[1..] == Up(p[1..]);
    }
  }
}
