/**
 * The unit catalogue: the set of unit symbols read from a line-oriented
 * reference text in which each remaining line is a comma-separated group of
 * interchangeable symbols.
 */
module Units {
  import opened Text

  /** Drops one carriage return from the end of a line, as `str::lines` does before a newline. */
  function StripCr(line: string): (r: string)
    ensures line == r || line == r + ['\r']
    ensures r == line <==> (line == [] || line[|line| - 1] != '\r')
  {
    if |line| > 0 && line[|line| - 1] == '\r' then line[..|line| - 1] else line
  }

  /**
   * `str::lines`: the text split at '\n', a "\r\n" ending counting as one
   * line ending, and no final empty line after a trailing newline (or for
   * an empty text).
   */
  function Lines(text: string): (r: seq<string>)
    ensures forall k :: 0 <= k < |r| ==> '\n' !in r[k]
  {
    var pieces := Split(text, '\n');
    var last := pieces[|pieces| - 1];
    var ended := seq(|pieces| - 1, k requires 0 <= k < |pieces| - 1 => StripCr(pieces[k]));
    if last == [] then ended else ended + [last]
  }

  /** A trimmed line that contributes symbols: not blank and not a `--` comment. */
  predicate IsDataLine(trimmed: string) {
    trimmed != [] && !StartsWith(trimmed, "--")
  }

  /** The comma-separated pieces of a trimmed data line, each kept as written. */
  function Pieces(trimmed: string): set<string> {
    set u | u in Split(trimmed, ',')
  }

  /** The symbols one line contributes: every comma-separated piece, not trimmed further. */
  function LineUnits(line: string): set<string> {
    var t := Trim(line);
    if IsDataLine(t) then Pieces(t) else {}
  }

  /** The symbols contributed by a sequence of lines, read in order. */
  function UnitsOf(lines: seq<string>): set<string> {
    if lines == [] then {} else UnitsOf(lines[..|lines| - 1]) + LineUnits(lines[|lines| - 1])
  }

  /** The catalogue a reference text describes. */
  function UnitSet(text: string): set<string> {
    UnitsOf(Lines(text))
  }

  /**
   * `units`: walks the lines of the reference text, adding every piece of
   * every data line to the set.
   */
  method Units(text: string) returns (units: set<string>)
    ensures units == UnitSet(text)
  {
    var lines := Lines(text);
    units := {};
    for i := 0 to |lines|
      invariant units == UnitsOf(lines[..i])
    {
      ghost var before := units;
      var line := Trim(lines[i]);
      if line != [] && !StartsWith(line, "--") {
        units := units + Pieces(line);
      }
      assert units == before + LineUnits(lines[i]);
      assert units == UnitsOf(lines[..i + 1]) by {
        assert lines[..i + 1] == lines[..i] + [lines[i]];
        UnitsOfSnoc(lines[..i], lines[i]);
      }
    }
    assert lines[..|lines|] == lines;
  }

  /** A symbol is in the catalogue of some lines exactly when one of those lines contributes it. */
  lemma {:induction false} UnitsOfMember(lines: seq<string>, u: string)
    ensures u in UnitsOf(lines) <==> exists k :: 0 <= k < |lines| && u in LineUnits(lines[k])
  {
    if lines != [] {
      var n := |lines| - 1;
      var init := lines[..n];
      UnitsOfMember(init, u);
      assert UnitsOf(lines) == UnitsOf(init) + LineUnits(lines[n]);
      if u in UnitsOf(init) {
        var k :| 0 <= k < |init| && u in LineUnits(init[k]);
        assert lines[k] == init[k];
      } else if u in LineUnits(lines[n]) {
        assert 0 <= n < |lines| && u in LineUnits(lines[n]);
      } else {
        forall k | 0 <= k < |lines| ensures u !in LineUnits(lines[k]) {
          if k < n {
            assert lines[k] == init[k];
          }
        }
      }
    }
  }

  /** Reading one more line adds exactly the symbols of that line. */
  lemma UnitsOfSnoc(lines: seq<string>, line: string)
    ensures UnitsOf(lines + [line]) == UnitsOf(lines) + LineUnits(line)
  {
    assert (lines + [line])[..|lines|] == lines;
  }

  /** A line contributes nothing exactly when it is blank or a `--` comment. */
  lemma LineUnitsEmptyIff(line: string)
    ensures LineUnits(line) == {} <==> !IsDataLine(Trim(line))
  {
    var t := Trim(line);
    if IsDataLine(t) {
      assert Split(t, ',')[0] in LineUnits(line);
    }
  }

  /** No symbol contains a comma or a newline. */
  lemma UnitSetHasNoSeparators(text: string)
    ensures forall u :: u in UnitSet(text) ==> ',' !in u && '\n' !in u
  {
    forall u | u in UnitSet(text) ensures ',' !in u && '\n' !in u {
      var lines := Lines(text);
      UnitsOfMember(lines, u);
      var k :| 0 <= k < |lines| && u in LineUnits(lines[k]);
      LineUnitsChars(lines[k], u);
    }
  }

  /** A symbol is made of characters of the line it comes from, and has no comma. */
  lemma LineUnitsChars(line: string, u: string)
    requires u in LineUnits(line)
    ensures ',' !in u
    ensures forall c :: c in u ==> c in line
  {
    var t := Trim(line);
    SplitChars(t, ',');
    TrimIsSlice(line);
    var i :| 0 <= i <= |line| - |t| && t == line[i..i + |t|];
    forall c | c in t ensures c in line {
      var k :| 0 <= k < |t| && t[k] == c;
      assert line[i + k] == c;
    }
  }

  /** Every character of a piece of a split is a character of the split string. */
  lemma {:induction false} SplitChars(s: string, sep: char)
    ensures forall p, c :: p in Split(s, sep) && c in p ==> c in s
  {
    if s != [] {
      SplitChars(s[1..], sep);
      var rest := Split(s[1..], sep);
      forall p, c | p in Split(s, sep) && c in p ensures c in s {
        if s[0] != sep && p == [s[0]] + rest[0] && c != s[0] {
          assert c in rest[0];
        }
      }
    }
  }

  /**
   * A text made of newline-terminated lines gives those lines back, each
   * without the carriage return of a "\r\n" ending.
   */
  lemma LinesOfTerminated(lines: seq<string>)
    requires forall k :: 0 <= k < |lines| ==> '\n' !in lines[k]
    ensures var r := Lines(Join(lines + [[]], '\n'));
            |r| == |lines| && forall k :: 0 <= k < |lines| ==> r[k] == StripCr(lines[k])
  {
    var pieces := lines + [[]];
    SplitJoin(pieces, '\n');
    assert Split(Join(pieces, '\n'), '\n')[|pieces| - 1] == [];
  }

  /**
   * A text whose last line has no newline after it gives back its lines:
   * every earlier line without the carriage return of a "\r\n" ending, and
   * the last line exactly as written.
   */
  lemma LinesOfUnterminated(lines: seq<string>)
    requires |lines| >= 1 && forall k :: 0 <= k < |lines| ==> '\n' !in lines[k]
    requires lines[|lines| - 1] != []
    ensures var r := Lines(Join(lines, '\n'));
            && |r| == |lines|
            && (forall k :: 0 <= k < |lines| - 1 ==> r[k] == StripCr(lines[k]))
            && r[|lines| - 1] == lines[|lines| - 1]
  {
    SplitJoin(lines, '\n');
  }

  /**
   * A data line written as comma-joined pieces contributes exactly those
   * pieces, surrounding spaces of inner pieces included.
   */
  lemma DataLineUnits(line: string, pieces: seq<string>)
    requires |pieces| >= 1 && forall k :: 0 <= k < |pieces| ==> ',' !in pieces[k]
    requires Trim(line) == Join(pieces, ',') && IsDataLine(Trim(line))
    ensures LineUnits(line) == set p | p in pieces
  {
    SplitJoin(pieces, ',');
  }

  /** The catalogue of two blocks of lines is the union of their catalogues. */
  lemma {:induction false} UnitsOfAppend(a: seq<string>, b: seq<string>)
    ensures UnitsOf(a + b) == UnitsOf(a) + UnitsOf(b)
  {
    if b == [] {
      assert a + b == a;
    } else {
      var init, last := b[..|b| - 1], b[|b| - 1];
      assert b == init + [last];
      assert a + b == (a + init) + [last];
      UnitsOfAppend(a, init);
      UnitsOfSnoc(a + init, last);
      UnitsOfSnoc(init, last);
    }
  }

  /** A blank or `--` comment line can be removed without changing the catalogue. */
  lemma IgnoredLineContributesNothing(a: seq<string>, line: string, b: seq<string>)
    requires !IsDataLine(Trim(line))
    ensures UnitsOf(a + [line] + b) == UnitsOf(a + b)
  {
    UnitsOfAppend(a + [line], b);
    UnitsOfSnoc(a, line);
    UnitsOfAppend(a, b);
  }
}
