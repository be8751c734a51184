/**
 * The text side of load_grid: how the grid number is written, which line
 * opens the wanted puzzle, and how the lines after it become rows of digits.
 * The file is given as its list of lines, each still ending in the '\n'
 * that Python's file iterator keeps.
 */
module GridText {
  import opened Wrappers

  // ---------------------------------------------------------------------------
  // Digits and str(n)

  predicate IsDigitChar(c: char)
  {
    '0' <= c <= '9'
  }

  /** The character of the decimal digit d. */
  function DigitChar(d: int): (c: char)
    requires 0 <= d <= 9
    ensures IsDigitChar(c)
    ensures d == 0 <==> c == '0'
  {
    ('0' as int + d) as char
  }

  /** int(c) for one ASCII digit character. */
  function DigitValue(c: char): (d: int)
    requires IsDigitChar(c)
    ensures 0 <= d <= 9 && DigitChar(d) == c
  {
    c as int - '0' as int
  }

  /** str(n) for a natural number: its decimal digits, most significant first, with no leading zero. */
  function NatString(n: nat): (s: string)
    decreases n
    ensures 1 <= |s|
    ensures |s| == 1 <==> n < 10
    ensures forall k :: 0 <= k < |s| ==> IsDigitChar(s[k])
    ensures n > 0 ==> s[0] != '0'
  {
    if n < 10 then [DigitChar(n)] else NatString(n / 10) + [DigitChar(n % 10)]
  }

  /** The number a string of decimal digits spells. */
  function NatValue(s: string): nat
    requires forall k :: 0 <= k < |s| ==> IsDigitChar(s[k])
  {
    if s == [] then 0 else NatValue(s[..|s| - 1]) * 10 + DigitValue(s[|s| - 1])
  }

  /** Reading str(n) back gives n. */
  lemma {:induction false} NatStringValue(n: nat)
    decreases n
    ensures NatValue(NatString(n)) == n
  {
    if n >= 10 {
      NatStringValue(n / 10);
      var s := NatString(n);
      assert s[..|s| - 1] == NatString(n / 10);
    }
  }

  /** str(n) for any integer: a '-' in front of a negative number. */
  function DecimalString(n: int): (s: string)
    ensures 1 <= |s|
    ensures s[0] == '-' <==> n < 0
    ensures |s| == 1 <==> 0 <= n < 10
  {
    if n < 0 then "-" + NatString(-n) else NatString(n)
  }

  /**
   * The grid number as load_grid searches for it: str(n), with a '0' in
   * front when that is a single character.
   */
  function GridLabel(n: int): (key: string)
    ensures 2 <= |key|
    ensures 0 <= n < 10 ==> key == ['0', DigitChar(n)]
    ensures !(0 <= n < 10) ==> key == DecimalString(n)
  {
    var s := DecimalString(n);
    if |s| == 1 then "0" + s else s
  }

  /** Different natural numbers have different decimal strings. */
  lemma NatStringInjective(a: nat, b: nat)
    requires NatString(a) == NatString(b)
    ensures a == b
  {
    NatStringValue(a);
    NatStringValue(b);
  }

  /** Different grid numbers are searched for under different labels. */
  lemma GridLabelInjective(a: int, b: int)
    requires GridLabel(a) == GridLabel(b)
    ensures a == b
  {
    var key := GridLabel(a);
    if 0 <= a < 10 && 0 <= b < 10 {
      assert DigitValue(key[1]) == a && DigitValue(key[1]) == b;
    } else if 0 <= a < 10 || 0 <= b < 10 {
      // one label starts with '0', the other with '-' or a non-zero digit
      assert false;
    } else if a < 0 {
      assert b < 0;
      assert NatString(-a) == key[1..] == NatString(-b);
      NatStringInjective(-a, -b);
    } else {
      NatStringInjective(a, b);
    }
  }

  // ---------------------------------------------------------------------------
  // Finding the header line

  /** line.startswith(prefix) */
  predicate StartsWith(line: string, prefix: string)
  {
    |prefix| <= |line| && line[..|prefix|] == prefix
  }

  /** `part` occurs in `line` starting at index i. */
  predicate OccursAt(line: string, part: string, i: int)
  {
    0 <= i <= |line| - |part| && line[i..i + |part|] == part
  }

  /** part in line, as a substring. */
  predicate Contains(line: string, part: string)
  {
    exists i :: 0 <= i <= |line| && OccursAt(line, part, i)
  }

  /** The line that opens the wanted grid: it starts with "Grid" and holds the key anywhere. */
  predicate IsGridHeader(line: string, key: string)
  {
    StartsWith(line, "Grid") && Contains(line, key)
  }

  /** The index of the first header line at or after `from`. */
  function FirstHeader(lines: seq<string>, key: string, from: nat): (r: Option<nat>)
    requires from <= |lines|
    decreases |lines| - from
    ensures r.Some? ==>
      from <= r.value < |lines| && IsGridHeader(lines[r.value], key) &&
      forall k :: from <= k < r.value ==> !IsGridHeader(lines[k], key)
    ensures r.None? ==> forall k :: from <= k < |lines| ==> !IsGridHeader(lines[k], key)
  {
    if from == |lines| then None
    else if IsGridHeader(lines[from], key) then Some(from)
    else FirstHeader(lines, key, from + 1)
  }

  // ---------------------------------------------------------------------------
  // Turning a line into a row

  /** The line without the '\n' characters at its start. */
  function TrimLeading(s: string): (r: string)
    ensures |r| <= |s|
  {
    if s != [] && s[0] == '\n' then TrimLeading(s[1..]) else s
  }

  /** The line without the '\n' characters at its end. */
  function TrimTrailing(s: string): (r: string)
    ensures |r| <= |s|
  {
    if s != [] && s[|s| - 1] == '\n' then TrimTrailing(s[..|s| - 1]) else s
  }

  /** line.strip('\n'): '\n' removed from both ends, nothing else. */
  function StripNewlines(s: string): (r: string)
    ensures |r| <= |s|
  {
    TrimTrailing(TrimLeading(s))
  }

  lemma {:induction false} TrimLeadingMeaning(s: string)
    ensures var r := TrimLeading(s);
      r == s[|s| - |r|..] && (r == [] || r[0] != '\n') &&
      forall k :: 0 <= k < |s| - |r| ==> s[k] == '\n'
  {
    if s != [] && s[0] == '\n' {
      TrimLeadingMeaning(s[1..]);
    }
  }

  lemma {:induction false} TrimTrailingMeaning(s: string)
    ensures var r := TrimTrailing(s);
      r == s[..|r|] && (r == [] || r[|r| - 1] != '\n') &&
      forall k :: |r| <= k < |s| ==> s[k] == '\n'
  {
    if s != [] && s[|s| - 1] == '\n' {
      TrimTrailingMeaning(s[..|s| - 1]);
    }
  }

  /**
   * What strip('\n') keeps: the stretch of the line from index `start`
   * that neither begins nor ends with '\n'; everything cut off is '\n'.
   */
  lemma StripNewlinesMeaning(s: string) returns (start: nat)
    ensures var r := StripNewlines(s);
      start + |r| <= |s| && r == s[start..start + |r|] &&
      (r == [] || (r[0] != '\n' && r[|r| - 1] != '\n')) &&
      forall k :: 0 <= k < |s| && !(start <= k < start + |r|) ==> s[k] == '\n'
  {
    var t := TrimLeading(s);
    TrimLeadingMeaning(s);
    TrimTrailingMeaning(t);
    start := |s| - |t|;
  }

  /** A line that neither starts nor ends with '\n' loses exactly its one final '\n'. */
  lemma StripOneNewline(t: string)
    requires t == [] || (t[0] != '\n' && t[|t| - 1] != '\n')
    ensures StripNewlines(t + "\n") == t
  {
    var s := t + "\n";
    if t == [] {
      assert TrimLeading(s) == [];
    } else {
      assert TrimLeading(s) == s;
      assert TrimTrailing(s) == TrimTrailing(t);
    }
  }

  /**
   * [int(c) for c in s] built left to right, or None when some character
   * is not a digit and int raises ValueError.
   */
  function ParseDigits(s: string): (r: Option<seq<int>>)
    ensures r.Some? ==> |r.value| == |s| && forall k :: 0 <= k < |s| ==> 0 <= r.value[k] <= 9
  {
    if s == [] then Some([])
    else
      match ParseDigits(s[..|s| - 1])
      case None => None
      case Some(front) =>
        if IsDigitChar(s[|s| - 1]) then Some(front + [DigitValue(s[|s| - 1])]) else None
  }

  /** A line parses exactly when all its characters are digits, and then into their values. */
  lemma {:induction false} ParseDigitsMeaning(s: string)
    ensures ParseDigits(s).Some? <==> forall k :: 0 <= k < |s| ==> IsDigitChar(s[k])
    ensures ParseDigits(s).Some? ==> forall k :: 0 <= k < |s| ==> ParseDigits(s).value[k] == DigitValue(s[k])
  {
    if s != [] {
      var n := |s| - 1;
      ParseDigitsMeaning(s[..n]);
      assert forall k :: 0 <= k < n ==> s[..n][k] == s[k];
    }
  }

  /** Each line stripped and parsed, first to last; None as soon as one line fails. */
  function ParseRows(block: seq<string>): (r: Option<seq<seq<int>>>)
    ensures r.Some? ==>
      |r.value| == |block| &&
      forall y, x :: 0 <= y < |block| && 0 <= x < |r.value[y]| ==> 0 <= r.value[y][x] <= 9
  {
    if block == [] then Some([])
    else
      match ParseRows(block[..|block| - 1])
      case None => None
      case Some(front) =>
        match ParseDigits(StripNewlines(block[|block| - 1]))
        case None => None
        case Some(row) =>
          var rows := front + [row];
          assert forall y :: 0 <= y < |front| ==> rows[y] == front[y];
          Some(rows)
  }

  /** The block fails exactly when one of its lines does. */
  lemma {:induction false} ParseRowsFails(block: seq<string>)
    ensures ParseRows(block).None? <==> exists y :: 0 <= y < |block| && ParseDigits(StripNewlines(block[y])).None?
  {
    if block != [] {
      var n := |block| - 1;
      var front := block[..n];
      ParseRowsFails(front);
      if ParseRows(front).None? {
        var y :| 0 <= y < n && ParseDigits(StripNewlines(front[y])).None?;
        assert front[y] == block[y];
      } else if ParseDigits(StripNewlines(block[n])).Some? {
        forall y | 0 <= y < |block|
          ensures ParseDigits(StripNewlines(block[y])).Some?
        {
          if y < n {
            assert front[y] == block[y];
          }
        }
      }
    }
  }

  /** When the block parses, its row y is line y parsed. */
  lemma {:induction false} ParseRowsRows(block: seq<string>)
    requires ParseRows(block).Some?
    ensures forall y :: 0 <= y < |block| ==> ParseDigits(StripNewlines(block[y])) == Some(ParseRows(block).value[y])
  {
    if block != [] {
      var n := |block| - 1;
      var front := block[..n];
      ParseRowsRows(front);
      var rows := ParseRows(block).value;
      forall y | 0 <= y < |block|
        ensures ParseDigits(StripNewlines(block[y])) == Some(rows[y])
      {
        if y < n {
          assert front[y] == block[y];
          assert rows[y] == ParseRows(front).value[y];
        }
      }
    }
  }

  // ---------------------------------------------------------------------------
  // load_grid

  /** How load_grid ends: False, the ValueError raised by int(), or the grid. */
  datatype LoadOutcome = NotFound | BadCharacter | Loaded(grid: seq<seq<int>>)

  /**
   * load_grid on the file's lines: the up to nine lines after the first
   * header for the grid number, each stripped of '\n' and read digit by digit.
   */
  function Load(lines: seq<string>, n: int): (r: LoadOutcome)
    ensures r.NotFound? <==> forall k :: 0 <= k < |lines| ==> !IsGridHeader(lines[k], GridLabel(n))
    ensures r.Loaded? ==>
      |r.grid| <= 9 &&
      forall y, x :: 0 <= y < |r.grid| && 0 <= x < |r.grid[y]| ==> 0 <= r.grid[y][x] <= 9
  {
    match FirstHeader(lines, GridLabel(n), 0)
    case None => NotFound
    case Some(i) => LoadBlock(Block(lines, i))
  }

  /** fhand[i + 1:i + 10]: the up to nine lines after line i. */
  function Block(lines: seq<string>, i: int): (block: seq<string>)
    requires 0 <= i < |lines|
    ensures |block| <= 9
  {
    lines[i + 1 .. if i + 10 <= |lines| then i + 10 else |lines|]
  }

  /** The grid-building half of load_grid, on the selected lines. */
  function LoadBlock(block: seq<string>): (r: LoadOutcome)
    ensures r.NotFound? == false
    ensures r.Loaded? ==> |r.grid| == |block|
  {
    match ParseRows(block)
    case None => BadCharacter
    case Some(rows) => Loaded(rows)
  }

  /** The first header line decides the block that is read. */
  lemma LoadAtHeader(lines: seq<string>, n: int, i: int)
    requires 0 <= i < |lines| && IsGridHeader(lines[i], GridLabel(n))
    requires forall k :: 0 <= k < i ==> !IsGridHeader(lines[k], GridLabel(n))
    ensures Load(lines, n) == LoadBlock(Block(lines, i))
  {
    var key := GridLabel(n);
    var r := FirstHeader(lines, key, 0);
    if r.None? {
      assert false;
    }
    if r.value < i {
      assert false;
    }
    if r.value > i {
      assert false;
    }
  }

  /** One line with a character that is not a digit makes load_grid raise, wherever it is in the block. */
  lemma BadLineSpoilsBlock(block: seq<string>, i: int)
    requires 0 <= i < |block| && ParseDigits(StripNewlines(block[i])).None?
    ensures LoadBlock(block) == BadCharacter
  {
    ParseRowsFails(block);
  }

  // ---------------------------------------------------------------------------
  // Reading back a written grid

  /** A row of digits as a line of the puzzle file. */
  function RenderRow(row: seq<int>): (line: string)
    requires forall x :: 0 <= x < |row| ==> 0 <= row[x] <= 9
    ensures |line| == |row| + 1 && line[|row|] == '\n'
  {
    seq(|row|, x requires 0 <= x < |row| => DigitChar(row[x])) + "\n"
  }

  /** The header "Grid <key>" followed by the grid's rows. */
  function GridFile(n: int, g: seq<seq<int>>): (lines: seq<string>)
    requires forall y, x :: 0 <= y < |g| && 0 <= x < |g[y]| ==> 0 <= g[y][x] <= 9
    ensures |lines| == |g| + 1
  {
    ["Grid " + GridLabel(n) + "\n"] + seq(|g|, y requires 0 <= y < |g| => RenderRow(g[y]))
  }

  lemma RenderedRowParses(row: seq<int>)
    requires forall x :: 0 <= x < |row| ==> 0 <= row[x] <= 9
    ensures ParseDigits(StripNewlines(RenderRow(row))) == Some(row)
  {
    var t := seq(|row|, x requires 0 <= x < |row| => DigitChar(row[x]));
    assert RenderRow(row) == t + "\n";
    StripOneNewline(t);
    assert forall x :: 0 <= x < |row| ==> IsDigitChar(t[x]) && DigitValue(t[x]) == row[x];
    ParseDigitsMeaning(t);
    var p := ParseDigits(t);
    assert p.value == row;
  }

  /**
   * load_grid reads back the grid it is given, written under its header:
   * nine rows, or fewer when the file ends there; lines after the nine rows
   * are never read.
   */
  lemma LoadRendered(n: int, g: seq<seq<int>>, rest: seq<string>)
    requires forall y, x :: 0 <= y < |g| && 0 <= x < |g[y]| ==> 0 <= g[y][x] <= 9
    requires |g| == 9 || (|g| < 9 && rest == [])
    ensures Load(GridFile(n, g) + rest, n) == Loaded(g)
  {
    var lines := GridFile(n, g) + rest;
    var key := GridLabel(n);
    assert OccursAt(lines[0], key, 5);
    assert IsGridHeader(lines[0], key);
    assert FirstHeader(lines, key, 0) == Some(0);
    var block := lines[1 .. if 10 <= |lines| then 10 else |lines|];
    assert |block| == |g|;
    forall y | 0 <= y < |g|
      ensures ParseDigits(StripNewlines(block[y])) == Some(g[y])
    {
      assert block[y] == RenderRow(g[y]);
      RenderedRowParses(g[y]);
    }
    ParseRowsFails(block);
    ParseRowsRows(block);
    var rows := ParseRows(block);
    assert rows.value == g;
  }
}
