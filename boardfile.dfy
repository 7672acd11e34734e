/**
 * The text format of board files, without the file handling around it:
 * save_board writes every row as its cells' decimal values, each followed
 * by one space, and ends the row with a newline; read_board splits the
 * text into lines, each line at whitespace, converts each token to an
 * integer, and turns the list of rows into a two-dimensional array.
 */
module BoardFile {
  import opened Torus
  import Life

  datatype Option<T> = None | Some(value: T)

  /** Why reading a board fails: a token int() rejects, or rows of different lengths. */
  datatype ReadError = InvalidLiteral(token: string) | InhomogeneousRows

  datatype Result<T> = Ok(value: T) | Err(error: ReadError)

  // ---------------------------------------------------------------------
  // Sequence facts, stated once for any element type
  // ---------------------------------------------------------------------

  lemma ConcatAssoc<T>(a: seq<T>, b: seq<T>, c: seq<T>)
    ensures a + (b + c) == (a + b) + c
  {
  }

  lemma DropLastSnoc<T>(s: seq<T>)
    requires s != []
    ensures s[..|s| - 1] + [s[|s| - 1]] == s
  {
  }

  // ---------------------------------------------------------------------
  // Decimal integers: str(n) and int(token)
  // ---------------------------------------------------------------------

  predicate IsDigit(c: char)
  {
    '0' <= c <= '9'
  }

  predicate AllDigits(s: string)
  {
    forall i :: 0 <= i < |s| ==> IsDigit(s[i])
  }

  function DigitChar(d: int): (c: char)
    requires 0 <= d <= 9
    ensures IsDigit(c) && c as int - '0' as int == d
  {
    ('0' as int + d) as char
  }

  /** The value of a string of decimal digits, most significant first. */
  function DigitsValue(s: string): nat
    requires AllDigits(s)
  {
    if s == [] then 0 else DigitsValue(s[..|s| - 1]) * 10 + (s[|s| - 1] as int - '0' as int)
  }

  /** The decimal digits of n without leading zeros, as str prints a non-negative int. */
  function NatToString(n: nat): (s: string)
    ensures |s| >= 1 && AllDigits(s)
    ensures DigitsValue(s) == n
    ensures s[0] == '0' ==> n == 0
    ensures n == 0 ==> s == "0"
    ensures |s| >= 2 ==> s[0] != '0'
  {
    if n < 10 then [DigitChar(n)]
    else
      var s := NatToString(n / 10) + [DigitChar(n % 10)];
      assert s[..|s| - 1] == NatToString(n / 10);
      s
  }

  /** str(n): a minus sign before the digits of a negative number. */
  function IntToString(n: int): string
  {
    if n < 0 then "-" + NatToString(-n) else NatToString(n)
  }

  /**
   * int(token) on a token that holds no whitespace: an optional sign and at
   * least one decimal digit, or None where int() raises ValueError.
   */
  function ParseInt(tok: string): (r: Option<int>)
    ensures r.Some? ==> |tok| >= 1
  {
    if |tok| >= 2 && (tok[0] == '-' || tok[0] == '+') && AllDigits(tok[1..]) then
      var magnitude: int := DigitsValue(tok[1..]);
      Some(if tok[0] == '-' then -magnitude else magnitude)
    else if |tok| >= 1 && AllDigits(tok) then
      Some(DigitsValue(tok))
    else
      None
  }

  // ---------------------------------------------------------------------
  // Lines and whitespace-separated tokens
  // ---------------------------------------------------------------------

  /** The characters str.isspace() accepts, on which str.split() splits. */
  predicate IsSpace(c: char)
  {
    var k := c as int;
    k == 0x20 || 0x09 <= k <= 0x0D || 0x1C <= k <= 0x1F || k == 0x85 || k == 0xA0 ||
    k == 0x1680 || 0x2000 <= k <= 0x200A || k == 0x2028 || k == 0x2029 ||
    k == 0x202F || k == 0x205F || k == 0x3000
  }

  predicate NoSpace(s: string)
  {
    forall i :: 0 <= i < |s| ==> !IsSpace(s[i])
  }

  predicate NoNewline(s: string)
  {
    forall i :: 0 <= i < |s| ==> s[i] != '\n'
  }

  /** Where the first line of s ends: the position of its first newline, or |s| when there is none. */
  function LineLength(s: string): (k: nat)
    ensures k <= |s|
    ensures k < |s| ==> s[k] == '\n'
  {
    if s == [] || s[0] == '\n' then 0 else 1 + LineLength(s[1..])
  }

  /** readlines: the text cut after every newline; each line keeps its newline, a last line may lack one. */
  function Lines(s: string): seq<string>
    decreases |s|
  {
    if s == [] then []
    else
      var k := LineLength(s);
      if k == |s| then [s] else [s[..k + 1]] + Lines(s[k + 1..])
  }

  /** Where the word at the start of s ends: the position of its first whitespace character, or |s|. */
  function WordLength(s: string): (k: nat)
    ensures k <= |s|
    ensures k < |s| ==> IsSpace(s[k])
  {
    if s == [] || IsSpace(s[0]) then 0 else 1 + WordLength(s[1..])
  }

  /** str.split() with no separator: the maximal runs of non-whitespace characters. */
  function Tokens(s: string): seq<string>
    decreases |s|
  {
    if s == [] then []
    else if IsSpace(s[0]) then Tokens(s[1..])
    else
      var k := WordLength(s);
      [s[..k]] + Tokens(s[k..])
  }

  // ---------------------------------------------------------------------
  // Writing a board
  // ---------------------------------------------------------------------

  /** One row of save_board: every cell's str followed by a space. */
  function RowText(row: seq<int>): string
  {
    if row == [] then "" else RowText(row[..|row| - 1]) + IntToString(row[|row| - 1]) + " "
  }

  /** The whole text of save_board: every row's text followed by a newline. */
  function BoardText(g: Grid): string
  {
    if g == [] then "" else BoardText(g[..|g| - 1]) + RowText(g[|g| - 1]) + "\n"
  }

  lemma RowTextSnoc(row: seq<int>, x: nat)
    requires x < |row|
    ensures RowText(row[..x + 1]) == RowText(row[..x]) + IntToString(row[x]) + " "
  {
    var p := row[..x + 1];
    assert p[..|p| - 1] == row[..x];
  }

  lemma AppendCell(before: string, row: seq<int>, x: nat)
    requires x < |row|
    ensures before + RowText(row[..x + 1]) == before + RowText(row[..x]) + IntToString(row[x]) + " "
  {
    RowTextSnoc(row, x);
    ConcatAssoc(before, RowText(row[..x]) + IntToString(row[x]), " ");
    ConcatAssoc(before, RowText(row[..x]), IntToString(row[x]));
  }

  lemma BoardTextSnoc(g: Grid, y: nat)
    requires y < |g|
    ensures BoardText(g[..y + 1]) == BoardText(g[..y]) + RowText(g[y]) + "\n"
  {
    var p := g[..y + 1];
    assert p[..|p| - 1] == g[..y];
  }

  /**
   * The string-building loops of save_board on an array board: the text
   * is BoardText of the board's rows.
   */
  method SaveBoardText(b: array2<int>) returns (text: string)
    ensures text == BoardText(Life.ToGrid(b))
  {
    ghost var g := Life.ToGrid(b);
    text := "";
    var y := 0;
    while y < b.Length0
      invariant 0 <= y <= b.Length0
      invariant text == BoardText(g[..y])
    {
      var x := 0;
      ghost var before := text;
      ghost var row := g[y];
      while x < b.Length1
        invariant 0 <= x <= b.Length1 && |row| == b.Length1
        invariant text == before + RowText(row[..x])
      {
        assert b[y, x] == row[x];
        AppendCell(before, row, x);
        text := text + IntToString(b[y, x]) + " ";
        x := x + 1;
      }
      assert row[..x] == row;
      BoardTextSnoc(g, y);
      text := text + "\n";
      y := y + 1;
    }
    assert g[..y] == g;
  }

  // ---------------------------------------------------------------------
  // Reading a board
  // ---------------------------------------------------------------------

  /** [int(x) for x in tokens]: the first token int() rejects is the error. */
  function ParseTokens(tokens: seq<string>): Result<seq<int>>
  {
    if tokens == [] then Ok([])
    else
      match ParseTokens(tokens[..|tokens| - 1])
      case Err(e) => Err(e)
      case Ok(cells) =>
        match ParseInt(tokens[|tokens| - 1])
        case None => Err(InvalidLiteral(tokens[|tokens| - 1]))
        case Some(v) => Ok(cells + [v])
  }

  /** The rows read from the lines, in order; the first failing line decides the error. */
  function ParseLines(lines: seq<string>): Result<Grid>
  {
    if lines == [] then Ok([])
    else
      match ParseLines(lines[..|lines| - 1])
      case Err(e) => Err(e)
      case Ok(rows) =>
        match ParseTokens(Tokens(lines[|lines| - 1]))
        case Err(e) => Err(e)
        case Ok(row) => Ok(rows + [row])
  }

  /** read_board: the rows of the text, refused when their lengths differ. */
  function ReadBoardText(text: string): Result<Grid>
  {
    match ParseLines(Lines(text))
    case Err(e) => Err(e)
    case Ok(rows) => if Rectangular(rows) then Ok(rows) else Err(InhomogeneousRows)
  }

  /**
   * The loop of read_board: each line is split and converted, and the row
   * appended to the board; the rows become an array only when rectangular.
   */
  method ReadBoard(text: string) returns (r: Result<Grid>)
    ensures r == ReadBoardText(text)
  {
    var lines := Lines(text);
    var board: Grid := [];
    var i := 0;
    while i < |lines|
      invariant 0 <= i <= |lines|
      invariant ParseLines(lines[..i]) == Ok(board)
    {
      assert lines[..i + 1][..i] == lines[..i];
      var split := ParseTokens(Tokens(lines[i]));
      if split.Err? {
        ParseLinesFails(lines, i + 1);
        return Err(split.error);
      }
      board := board + [split.value];
      i := i + 1;
    }
    assert lines[..i] == lines;
    if !Rectangular(board) {
      return Err(InhomogeneousRows);
    }
    r := Ok(board);
  }

  /** Once a prefix of the lines fails to parse, so do all the lines. */
  lemma {:induction false} ParseLinesFails(lines: seq<string>, n: nat)
    requires n <= |lines| && ParseLines(lines[..n]).Err?
    ensures ParseLines(lines) == ParseLines(lines[..n])
    decreases |lines| - n
  {
    if n < |lines| {
      assert lines[..n + 1][..n] == lines[..n];
      ParseLinesFails(lines, n + 1);
    } else {
      assert lines[..n] == lines;
    }
  }

  // ---------------------------------------------------------------------
  // What save_board writes, read_board reads back
  // ---------------------------------------------------------------------

  /** int(str(n)) == n. */
  lemma ParseIntOfString(n: int)
    ensures ParseInt(IntToString(n)) == Some(n)
  {
    var tok := IntToString(n);
    if n < 0 {
      assert tok[1..] == NatToString(-n);
    }
  }

  /** str(n) is a non-empty word: no whitespace, no newline. */
  lemma IntToStringIsWord(n: int)
    ensures |IntToString(n)| >= 1 && NoSpace(IntToString(n)) && NoNewline(IntToString(n))
  {
    var d := NatToString(if n < 0 then -n else n);
    assert forall i :: 0 <= i < |d| ==> IsDigit(d[i]);
  }

  /** A row's text holds no newline and, unless empty, ends in a space. */
  lemma {:induction false} RowTextShape(row: seq<int>)
    ensures NoNewline(RowText(row))
    ensures RowText(row) == [] || IsSpace(RowText(row)[|RowText(row)| - 1])
  {
    if row != [] {
      RowTextShape(row[..|row| - 1]);
      IntToStringIsWord(row[|row| - 1]);
    }
  }

  /** A line that ends inside s ends at the same place in s + t. */
  lemma {:induction false} LineLengthPrefix(s: string, t: string)
    requires LineLength(s) < |s|
    ensures LineLength(s + t) == LineLength(s)
  {
    assert (s + t)[0] == s[0];
    if s[0] != '\n' {
      assert (s + t)[1..] == s[1..] + t;
      LineLengthPrefix(s[1..], t);
    }
  }

  /** A line without a newline, followed by one, ends at that newline. */
  lemma {:induction false} LineLengthOfLine(l: string)
    requires NoNewline(l)
    ensures LineLength(l + "\n") == |l|
  {
    if l != [] {
      assert (l + "\n")[1..] == l[1..] + "\n";
      LineLengthOfLine(l[1..]);
    }
  }

  /** Text ending in a newline has its first line end inside it. */
  lemma {:induction false} LineEndsInside(s: string)
    requires s != [] && s[|s| - 1] == '\n'
    ensures LineLength(s) < |s|
  {
    if s[0] != '\n' {
      LineEndsInside(s[1..]);
    }
  }

  /** Text ending in whitespace has its first word end inside it. */
  lemma {:induction false} WordEndsInside(s: string)
    requires s != [] && IsSpace(s[|s| - 1])
    ensures WordLength(s) < |s|
  {
    if !IsSpace(s[0]) {
      WordEndsInside(s[1..]);
    }
  }

  /** A word that ends inside s ends at the same place in s + t. */
  lemma {:induction false} WordLengthPrefix(s: string, t: string)
    requires WordLength(s) < |s|
    ensures WordLength(s + t) == WordLength(s)
  {
    assert (s + t)[0] == s[0];
    if !IsSpace(s[0]) {
      assert (s + t)[1..] == s[1..] + t;
      WordLengthPrefix(s[1..], t);
    }
  }

  /** A word followed by whitespace ends at that whitespace. */
  lemma {:induction false} WordLengthOfWord(w: string, c: char)
    requires NoSpace(w) && IsSpace(c)
    ensures WordLength(w + [c]) == |w|
  {
    if w != [] {
      assert (w + [c])[1..] == w[1..] + [c];
      WordLengthOfWord(w[1..], c);
    }
  }

  /** Splitting text that ends in whitespace, followed by more text, splits each part apart. */
  lemma {:induction false} TokensConcat(s: string, t: string)
    requires s == [] || IsSpace(s[|s| - 1])
    ensures Tokens(s + t) == Tokens(s) + Tokens(t)
    decreases |s|
  {
    if s == [] {
      assert s + t == t;
    } else if IsSpace(s[0]) {
      assert (s + t)[1..] == s[1..] + t;
      TokensConcat(s[1..], t);
    } else {
      var k := WordLength(s);
      WordEndsInside(s);
      WordLengthPrefix(s, t);
      assert (s + t)[..k] == s[..k];
      assert (s + t)[k..] == s[k..] + t;
      TokensConcat(s[k..], t);
    }
  }

  /** A lone whitespace character holds no token. */
  lemma TokensOfSpace(c: char)
    requires IsSpace(c)
    ensures Tokens([c]) == []
  {
    assert [c][1..] == [];
  }

  /** A word followed by one whitespace character is one token. */
  lemma TokensOfWord(w: string, c: char)
    requires |w| >= 1 && NoSpace(w) && IsSpace(c)
    ensures Tokens(w + [c]) == [w]
  {
    var s := w + [c];
    WordLengthOfWord(w, c);
    var k := WordLength(s);
    assert s[..k] == w;
    assert s[k..] == [c];
    assert Tokens([c]) == Tokens([]);
  }

  /** The str of every cell, in order. */
  function CellStrings(row: seq<int>): seq<string>
  {
    if row == [] then [] else CellStrings(row[..|row| - 1]) + [IntToString(row[|row| - 1])]
  }

  /** The tokens of a row's text are the cells' strings, in order. */
  lemma {:induction false} TokensOfRowText(row: seq<int>)
    ensures Tokens(RowText(row)) == CellStrings(row)
  {
    if row != [] {
      var front, last := row[..|row| - 1], row[|row| - 1];
      TokensOfRowText(front);
      RowTextShape(front);
      IntToStringIsWord(last);
      assert RowText(row) == RowText(front) + (IntToString(last) + " ");
      TokensConcat(RowText(front), IntToString(last) + " ");
      TokensOfWord(IntToString(last), ' ');
    }
  }

  /** Converting the strings of the cells gives back the cells. */
  lemma {:induction false} ParseTokensOfStrings(row: seq<int>)
    ensures ParseTokens(CellStrings(row)) == Ok(row)
  {
    if row != [] {
      var front := row[..|row| - 1];
      var toks := CellStrings(row);
      assert toks[..|toks| - 1] == CellStrings(front);
      ParseTokensOfStrings(front);
      assert toks[|toks| - 1] == IntToString(row[|row| - 1]);
      ParseIntOfString(row[|row| - 1]);
      assert ParseTokens(toks) == Ok(front + [row[|row| - 1]]);
      DropLastSnoc(row);
    }
  }

  /** A saved row, read back as one line, is the same row. */
  lemma RowRoundTrip(row: seq<int>)
    ensures ParseTokens(Tokens(RowText(row) + "\n")) == Ok(row)
  {
    var text := RowText(row);
    RowTextShape(row);
    TokensConcat(text, "\n");
    TokensOfSpace('\n');
    assert Tokens(text + "\n") == Tokens(text);
    TokensOfRowText(row);
    ParseTokensOfStrings(row);
  }

  /** Text ending in a newline, followed by more text, is cut into lines part by part. */
  lemma {:induction false} LinesConcat(s: string, t: string)
    requires s == [] || s[|s| - 1] == '\n'
    ensures Lines(s + t) == Lines(s) + Lines(t)
    decreases |s|
  {
    if s == [] {
      assert s + t == t;
    } else {
      var k := LineLength(s);
      FirstLine(s, t);
      LinesConcat(s[k + 1..], t);
      ConcatAssoc([s[..k + 1]], Lines(s[k + 1..]), Lines(t));
    }
  }

  /** The first line of text ending in a newline is also the first line of that text followed by more. */
  lemma FirstLine(s: string, t: string)
    requires s != [] && s[|s| - 1] == '\n'
    ensures LineLength(s) < |s|
    ensures var k := LineLength(s); var rest := s[k + 1..];
      (rest == [] || rest[|rest| - 1] == '\n') &&
      Lines(s) == [s[..k + 1]] + Lines(rest) &&
      Lines(s + t) == [s[..k + 1]] + Lines(rest + t)
  {
    var k := LineLength(s);
    LineEndsInside(s);
    LineLengthPrefix(s, t);
    assert (s + t)[..k + 1] == s[..k + 1];
    assert (s + t)[k + 1..] == s[k + 1..] + t;
  }

  /** A line without a newline, followed by one, is one line. */
  lemma LinesOfLine(l: string)
    requires NoNewline(l)
    ensures Lines(l + "\n") == [l + "\n"]
  {
    var s := l + "\n";
    LineLengthOfLine(l);
    assert s[..|l| + 1] == s;
  }

  lemma BoardTextEnds(g: Grid)
    ensures BoardText(g) == [] || BoardText(g)[|BoardText(g)| - 1] == '\n'
  {
  }

  /** The lines of a saved board are those of all rows but the last, then the last row's line. */
  lemma LinesOfBoardText(g: Grid)
    requires g != []
    ensures Lines(BoardText(g)) == Lines(BoardText(g[..|g| - 1])) + [RowText(g[|g| - 1]) + "\n"]
  {
    var head, row := BoardText(g[..|g| - 1]), RowText(g[|g| - 1]);
    assert BoardText(g) == head + (row + "\n");
    BoardTextEnds(g[..|g| - 1]);
    RowTextShape(g[|g| - 1]);
    LinesConcat(head, row + "\n");
    LinesOfLine(row);
  }

  /** One more line that parses to a row adds that row. */
  lemma ParseLinesSnoc(all: seq<string>, lines: seq<string>, line: string, rows: Grid, row: seq<int>)
    requires all == lines + [line]
    requires ParseLines(lines) == Ok(rows)
    requires ParseTokens(Tokens(line)) == Ok(row)
    ensures ParseLines(all) == Ok(rows + [row])
  {
    assert all[..|lines|] == lines;
  }

  /** Every row save_board writes is read back, in order, from the lines of the text. */
  lemma {:induction false} ParseSavedLines(g: Grid)
    ensures ParseLines(Lines(BoardText(g))) == Ok(g)
  {
    if g != [] {
      ParseSavedLines(g[..|g| - 1]);
      ParseSavedLast(g);
    }
  }

  /** The last row written is read back after the others. */
  lemma ParseSavedLast(g: Grid)
    requires g != [] && ParseLines(Lines(BoardText(g[..|g| - 1]))) == Ok(g[..|g| - 1])
    ensures ParseLines(Lines(BoardText(g))) == Ok(g)
  {
    var front, last := g[..|g| - 1], g[|g| - 1];
    LinesOfBoardText(g);
    RowRoundTrip(last);
    DropLastSnoc(g);
    ParseLinesSnoc(Lines(BoardText(g)), Lines(BoardText(front)), RowText(last) + "\n", front, last);
  }

  /**
   * Reading back what save_board wrote gives the same board exactly when
   * its rows all have the same length, as every array board's rows do.
   */
  lemma ReadSavedBoard(g: Grid)
    ensures ReadBoardText(BoardText(g)) == (if Rectangular(g) then Ok(g) else Err(InhomogeneousRows))
  {
    ParseSavedLines(g);
  }

  /** An array board saved and read back is the same board. */
  lemma SaveReadRoundTrip(b: array2<int>)
    ensures ReadBoardText(BoardText(Life.ToGrid(b))) == Ok(Life.ToGrid(b))
  {
    ReadSavedBoard(Life.ToGrid(b));
  }
}
