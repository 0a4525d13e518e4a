/**
 * The generator's output context: the parsed AST, the current tab depth and
 * the text buffer the generated file is built in.
 */
module BindingContexts {
  import opened CppAst
  import opened SystemStrings

  /** The tabs `AppendString` puts before its input: `TabIndex` of them, none when asked to ignore the tab or when `TabIndex <= 0`. */
  function TabPrefix(tabIndex: int, ignoreTab: bool): (p: string)
    ensures |p| == if ignoreTab || tabIndex <= 0 then 0 else tabIndex
    ensures forall i :: 0 <= i < |p| ==> p[i] == '\t'
  {
    if ignoreTab || tabIndex <= 0 then [] else Repeat('\t', tabIndex)
  }

  /** The text one `AppendString(input, ignoreTab)` call appends at tab depth `tabIndex`. */
  function Line(tabIndex: int, input: string, ignoreTab: bool := false): string {
    TabPrefix(tabIndex, ignoreTab) + input + "\n"
  }

  /**
   * An appended line is the tab prefix, the input verbatim and one line feed:
   * it grows the buffer by `max(TabIndex, 0) + |input| + 1` characters when tabs
   * are not ignored, and by `|input| + 1` when they are.
   */
  lemma LineShape(tabIndex: int, input: string, ignoreTab: bool)
    ensures var l := Line(tabIndex, input, ignoreTab);
      var n := if ignoreTab || tabIndex <= 0 then 0 else tabIndex;
      && |l| == n + |input| + 1
      && (forall i :: 0 <= i < n ==> l[i] == '\t')
      && l[n..n + |input|] == input
      && l[|l| - 1] == '\n'
  {
    var n := if ignoreTab || tabIndex <= 0 then 0 else tabIndex;
    var l := Line(tabIndex, input, ignoreTab);
    assert l == TabPrefix(tabIndex, ignoreTab) + input + "\n";
    assert l[n..n + |input|] == input;
  }

  /** The default call `AppendString()` appends the tab prefix and a line feed only. */
  lemma EmptyLine(tabIndex: int)
    ensures Line(tabIndex, "") == TabPrefix(tabIndex, false) + "\n"
  {
  }

  class BindingContext {
    /** The parsed header (`AST`; non-null once the header has been parsed). */
    var AST: Ast
    var TabIndex: int
    /** `OutputFile`, the `StringBuilder` the generated text accumulates in. */
    var OutputFile: string

    constructor ()
      ensures AST == Ast(TypeGraph(map[], map[], map[]), [])
      ensures TabIndex == 0 && OutputFile == []
    {
      AST := Ast(TypeGraph(map[], map[], map[]), []);
      TabIndex := 0;
      OutputFile := [];
    }

    /** `Units`: the translation units of the AST. */
    function Units(): seq<TranslationUnit>
      reads this
    {
      AST.units
    }

    method AppendString(input: string := "", ignoreTab: bool := false)
      modifies this`OutputFile
      ensures OutputFile == old(OutputFile) + Line(TabIndex, input, ignoreTab)
    {
      var outPut: string := [];
      if !ignoreTab {
        var i := 0;
        while i < TabIndex
          invariant 0 <= i && (TabIndex > 0 ==> i <= TabIndex) && (TabIndex <= 0 ==> i == 0)
          invariant outPut == Repeat('\t', i)
        {
          outPut := outPut + "\t";
          i := i + 1;
        }
      }
      outPut := outPut + input;
      OutputFile := OutputFile + outPut + "\n";
    }
  }
}
