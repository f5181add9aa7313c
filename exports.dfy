/**
 * The records of the declaration export the generator reads: declarations with
 * their constructors and structure fields, module docs and tactic docs, and the
 * tagged pretty-printed expressions ("efmt") that types are given in.
 */
module Exports {
  import opened ImportNames

  /**
   * A pretty-printed expression as it arrives in the export: a string leaf, or a
   * JSON list whose first element is a tag ('n' for a function-position node with
   * one child, 'c' for a concatenation of two) and whose other elements are children.
   */
  datatype Efmt = Str(text: string) | Node(tag: string, args: seq<Efmt>)

  /** A declaration's `filename`: the raw path from the export, replaced in place by its import name. */
  datatype FileRef = RawPath(path: Path) | Resolved(name: ImportName)

  /** A `(name, type)` pair of a constructor or structure field. */
  datatype Field = Field(name: string, type_: Efmt)

  /**
   * One declaration record. The fields used only by page templates (`doc_string`,
   * `args`, `type`, `attributes`, `equations`) are not modelled.
   */
  datatype Decl = Decl(
    name: string,
    filename: FileRef,
    kind: string,
    isMeta: bool,
    line: nat,
    constructors: seq<Field>,
    structureFields: seq<Field>)

  /** A module docstring entry of `mod_docs`. */
  datatype ModDoc = ModDoc(doc: string, line: nat)

  /** A tactic, command, hole command or attribute documentation entry of `tactic_docs`. */
  datatype TacticDoc = TacticDoc(
    name: string,
    category: string,
    declNames: seq<string>,
    tags: seq<string>,
    description: string,
    importPath: string)

  function FieldNames(fs: seq<Field>): (r: seq<string>)
    ensures |r| == |fs| && forall i :: 0 <= i < |fs| ==> r[i] == fs[i].name
  {
    seq(|fs|, i requires 0 <= i < |fs| => fs[i].name)
  }
}
