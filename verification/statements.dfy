/** core/statements.py: any top-level statement, kept as its raw text. */
module PyStatements {
  import opened Wrappers
  import opened Errors
  import opened CodeBase

  datatype Statement = Statement(base: Base, raw: string)

  /** `PyStatement.from_graphsitter(node)`: a node without `to_source` is
      refused, an exception from it passes through, and otherwise its text
      is stored next to the node itself. */
  function StatementFromGraphsitter(node: GsNode): (r: Result<Statement, Error>)
    ensures node.toSource.Missing? ==> r == Err(GraphSitterIntegrationError)
    ensures node.toSource.Raises? ==> r == Err(ForeignError)
    ensures node.toSource.Returns? ==> (r.Ok? <==> Construct(node, true).Ok?)
    ensures r.Ok? ==> r.value.raw == node.toSource.value && r.value.base == Base(node, true)
  {
    match node.toSource
    case Missing => Err(GraphSitterIntegrationError)
    case Raises => Err(ForeignError)
    case Returns(s) =>
      match Construct(node, true)
      case Ok(b) => Ok(Statement(b, s))
      case Err(e) => Err(e)
  }

  /** `to_source()`: the stored text. */
  function StatementSource(st: Statement): string {
    st.raw
  }

  /** The text given back is the node's text at wrapping time, and does not
      follow the node afterwards: with another node in its place (one whose
      own `to_source` says something else) the statement still gives the
      stored text, where `BaseCodeNode.to_source` would ask the node. */
  lemma StatementRoundTrip(node: GsNode, later: GsNode)
    requires StatementFromGraphsitter(node).Ok?
    requires later.toSource.Returns? && later.toSource != node.toSource
    ensures StatementSource(StatementFromGraphsitter(node).value) == node.toSource.value
    ensures var st := StatementFromGraphsitter(node).value.(base := Base(later, true));
      StatementSource(st) == node.toSource.value &&
      CodeBase.ToSource(st.base) != Ok(StatementSource(st))
  {
  }
}
