/// The packer's reader for the compiler's symbol file: newline-separated
/// lines `labelIdx,varIdx,componentIdx,name`, collected into a table keyed
/// by name.
module SymbolFile {
  import opened Text

  /** One symbol-table entry; the packer also creates entries of its own. */
  datatype Symbol = Symbol(labelIdx: JsNumber, varIdx: JsNumber, componentIdx: JsNumber)

  type SymbolTable = map<string, Symbol>

  /** A line is recorded exactly when it has four comma-separated fields. */
  predicate IsRecord(line: string)
  {
    |Split(line, ',')| == 4
  }

  /** The key of a record: its fourth field. */
  function Name(line: string): string
    requires IsRecord(line)
  {
    Split(line, ',')[3]
  }

  /** The entry of a record: `Number` of its first three fields. */
  function Entry(line: string): Symbol
    requires IsRecord(line)
  {
    var f := Split(line, ',');
    Symbol(ParseNumber(f[0]), ParseNumber(f[1]), ParseNumber(f[2]))
  }

  /** The table after reading `lines` in order; a later record overwrites an earlier one. */
  function ParseLines(lines: seq<string>): SymbolTable
  {
    if lines == [] then map[]
    else
      var table := ParseLines(lines[..|lines| - 1]);
      var line := lines[|lines| - 1];
      if IsRecord(line) then table[Name(line) := Entry(line)] else table
  }

  /** The symbol-file half of `read_files`: split into lines, keep the 4-field ones. */
  method ReadSymbols(text: string) returns (symbols: SymbolTable)
    ensures symbols == ParseLines(Split(text, '\n'))
  {
    var lines := Split(text, '\n');
    symbols := map[];
    var i := 0;
    while i < |lines|
      invariant 0 <= i <= |lines|
      invariant symbols == ParseLines(lines[..i])
    {
      var arr := Split(lines[i], ',');
      if |arr| == 4 {
        symbols := symbols[arr[3] := Symbol(ParseNumber(arr[0]), ParseNumber(arr[1]), ParseNumber(arr[2]))];
      }
      assert lines[..i + 1][..i] == lines[..i];
      i := i + 1;
    }
    assert lines[..|lines|] == lines;
  }

  /** A name is in the table exactly when some line is a record with that name. */
  lemma {:induction false} ParseLinesDomain(lines: seq<string>, name: string)
    ensures name in ParseLines(lines)
        <==> exists i :: 0 <= i < |lines| && IsRecord(lines[i]) && Name(lines[i]) == name
  {
    if lines != [] {
      var init := lines[..|lines| - 1];
      ParseLinesDomain(init, name);
      if name in ParseLines(lines) && !(IsRecord(lines[|lines| - 1]) && Name(lines[|lines| - 1]) == name) {
        var i :| 0 <= i < |init| && IsRecord(init[i]) && Name(init[i]) == name;
        assert lines[i] == init[i];
      }
      if exists i :: 0 <= i < |lines| && IsRecord(lines[i]) && Name(lines[i]) == name {
        var i :| 0 <= i < |lines| && IsRecord(lines[i]) && Name(lines[i]) == name;
        if i < |init| {
          assert init[i] == lines[i];
        }
      }
    }
  }

  /** The entry stored under a name comes from the last record with that name. */
  lemma {:induction false} ParseLinesLast(lines: seq<string>, i: nat)
    requires i < |lines| && IsRecord(lines[i])
    requires forall j :: i < j < |lines| && IsRecord(lines[j]) ==> Name(lines[j]) != Name(lines[i])
    ensures Name(lines[i]) in ParseLines(lines)
    ensures ParseLines(lines)[Name(lines[i])] == Entry(lines[i])
  {
    var init := lines[..|lines| - 1];
    if i < |lines| - 1 {
      assert init[i] == lines[i];
      forall j | i < j < |init| && IsRecord(init[j])
        ensures Name(init[j]) != Name(init[i])
      {
        assert init[j] == lines[j];
      }
      ParseLinesLast(init, i);
    }
  }

  /** Every character of a piece occurs in the split text. */
  lemma {:induction false} SplitPieceChars(s: string, d: char, i: nat, c: char)
    requires i < |Split(s, d)| && c in Split(s, d)[i]
    ensures c in s
  {
    if s != [] {
      var rest := Split(s[1..], d);
      if s[0] == d {
        SplitPieceChars(s[1..], d, i - 1, c);
      } else if i == 0 {
        if c != s[0] {
          SplitPieceChars(s[1..], d, 0, c);
        }
      } else {
        SplitPieceChars(s[1..], d, i, c);
      }
    }
  }

  /** The names read from a symbol file never contain a comma or a line break. */
  lemma NamesAreFieldFree(text: string, name: string)
    requires name in ParseLines(Split(text, '\n'))
    ensures ',' !in name && '\n' !in name
  {
    var lines := Split(text, '\n');
    ParseLinesDomain(lines, name);
    var i :| 0 <= i < |lines| && IsRecord(lines[i]) && Name(lines[i]) == name;
    SplitPiecesFree(lines[i], ',');
    SplitPiecesFree(text, '\n');
    if '\n' in name {
      SplitPieceChars(lines[i], ',', 3, '\n');
      assert false;
    }
  }
}
