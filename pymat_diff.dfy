/** The two text normalisers of pymat_diff.py, which bring a Python source
    file and a MATLAB source file (each a list of lines) closer to each
    other before they are diffed: `matlabize` makes Python text look more
    like MATLAB, `pythonize` makes MATLAB text look more like Python. */
module PymatDiff {
  import opened Results
  import opened Text

  /** The encoding declaration `matlabize` removes from its result. */
  const CodingLine := "# -*- coding: utf-8 -*-"

  /** The opening of a module docstring. */
  const DocQuotes := "\"\"\""

  // ---------------------------------------------------------------- matlabize

  /** The import filter of `matlabize`, applied to the line as it was read,
      before any white space is stripped. */
  predicate IsImport(line: string) {
    StartsWith(line, "import") || StartsWith(line, "from")
  }

  predicate KeepPython(line: string) {
    !IsImport(line)
  }

  /** What `matlabize` makes of a line it keeps: leading white space
      stripped, then every `np.` that one left-to-right scan finds removed. */
  function MatlabLine(line: string): (r: string)
    ensures |r| <= |line|
  {
    Replace(LStrip(line), "np.", "")
  }

  /** The lines the loop of `matlabize` collects, in order. */
  function MatlabKept(text: seq<string>): (r: seq<string>)
    ensures |r| <= |text|
  {
    MapSeq(MatlabLine, Filter(KeepPython, text))
  }

  /** `list.remove(x)`: drops the first element equal to `x`; ValueError
      when there is none. */
  function ListRemove(xs: seq<string>, x: string): (r: Result<seq<string>>)
    ensures r.Failure? <==> x !in xs
    ensures r.Failure? ==> r.error == ValueError
    ensures r.Success? ==> |r.value| == |xs| - 1
    ensures r.Success? ==> multiset(r.value) + multiset{x} == multiset(xs)
    ensures r.Success? ==> var i := IndexOf(xs, x).value;
      r.value[..i] == xs[..i] && r.value[i..] == xs[i + 1..]
  {
    match IndexOf(xs, x)
    case None => Failure(ValueError)
    case Some(i) =>
      assert xs == xs[..i] + [x] + xs[i + 1..];
      Success(xs[..i] + xs[i + 1..])
  }

  /** `matlabize(text_py)`. */
  method Matlabize(textPy: seq<string>) returns (r: Result<seq<string>>)
    ensures var kept := MatlabKept(textPy);
      (r == Failure(ValueError) <==> CodingLine !in kept)
    ensures var kept := MatlabKept(textPy);
      (r == Failure(IndexError) <==> kept == [CodingLine])
    ensures r.Success? ==>
      var kept := MatlabKept(textPy);
      var rest := ListRemove(kept, CodingLine).value;
      && rest != []
      && (StartsWith(rest[0], DocQuotes) <==> |r.value| < |rest|)
      && r.value == (if StartsWith(rest[0], DocQuotes) then rest[1..] else rest)
  {
    var modifiedPy: seq<string> := [];

    for i := 0 to |textPy|
      invariant modifiedPy == MatlabKept(textPy[..i])
    {
      assert textPy[..i + 1] == textPy[..i] + [textPy[i]];
      FilterSnoc(KeepPython, textPy[..i], textPy[i]);
      var line := textPy[i];
      if StartsWith(line, "import") {
        continue;
      } else if StartsWith(line, "from") {
        continue;
      }
      line := LStrip(line);
      line := Replace(line, "np.", "");
      modifiedPy := modifiedPy + [line];
    }
    assert textPy[..|textPy|] == textPy;

    ghost var kept := modifiedPy;
    modifiedPy :- ListRemove(modifiedPy, CodingLine);
    if |modifiedPy| == 0 {
      assert kept == [CodingLine] by {
        assert |kept| == 1 && CodingLine in kept;
      }
      return Failure(IndexError);
    }
    assert kept != [CodingLine];
    if StartsWith(modifiedPy[0], DocQuotes) {
      modifiedPy := modifiedPy[1..];
    }
    return Success(modifiedPy);
  }

  /** The import test looks at the line before it is stripped, so an
      indented import survives (and loses its indentation). */
  lemma IndentedImportKept(line: string)
    requires |line| > 0 && IsSpace(line[0])
    ensures KeepPython(line)
    ensures MatlabKept([line]) == [MatlabLine(line)]
  {
    assert Filter(KeepPython, [line]) == [line] + Filter(KeepPython, []);
  }

  /** Lines that are imports as read never reach the result. */
  lemma {:induction false} ImportsDropped(text: seq<string>)
    requires forall k :: 0 <= k < |text| ==> IsImport(text[k])
    ensures Filter(KeepPython, text) == [] && MatlabKept(text) == []
  {
    if text != [] {
      ImportsDropped(text[1..]);
    }
  }

  /** Removing `np.` once is not the same as removing it until none is
      left: `nnp.p.` becomes `np.`. */
  lemma NpRemovalSinglePass()
    ensures MatlabLine("nnp.p.") == "np."
  {
    var s := "nnp.p.";
    assert s[0] == 'n' && LStrip(s) == s;
    NpStep(s);
    ReplaceAtHead("p.", "np.", "");
  }

  /** The scan does not match at the first `n` of `nnp.p.`. */
  lemma NpStep(s: string)
    requires s == "nnp.p."
    ensures Replace(s, "np.", "") == "n" + Replace("np." + "p.", "np.", "")
  {
    assert s[..3][1] != "np."[1];
    assert s[1..] == "np." + "p.";
  }

  // ---------------------------------------------------------------- pythonize

  /** The `end` filter of `pythonize`, applied after the leading white
      space is stripped and before the semicolons are. */
  predicate KeepMatlab(line: string) {
    LStrip(line) != "end"
  }

  /** The replacements `pythonize` makes, in the order it makes them:
      `;  %`, `% `, `^`, `.*`, `./`, `(i)`. */
  const Rewrites: seq<Rule> := [
    Rule(";  %", "  %"),  // a semicolon before a comment
    Rule("% ", "# "),     // comment marker
    Rule("^", "**"),      // power
    Rule(".*", "*"),      // element-wise product
    Rule("./", "/"),      // element-wise quotient
    Rule("(i)", "[i]")    // indexing by i
  ]

  /** What `pythonize` does to a stripped line before the `function` test:
      trailing semicolons removed, then the replacements of `Rewrites`. */
  function Rewrite(line: string): string {
    assert ValidRules(Rewrites);
    ReplaceAll(RStrip(line, ';'), Rewrites)
  }

  /** `Rewrite` written out as the chain of replacements the source makes. */
  lemma RewriteSteps(line: string)
    ensures Rewrite(line) ==
      Replace(Replace(Replace(Replace(Replace(Replace(RStrip(line, ';'),
        ";  %", "  %"), "% ", "# "), "^", "**"), ".*", "*"), "./", "/"), "(i)", "[i]")
  {
    var s0 := RStrip(line, ';');
    var s1 := Replace(s0, ";  %", "  %");
    var s2 := Replace(s1, "% ", "# ");
    var s3 := Replace(s2, "^", "**");
    var s4 := Replace(s3, ".*", "*");
    var s5 := Replace(s4, "./", "/");
    var s6 := Replace(s5, "(i)", "[i]");
    assert ValidRules(Rewrites);
    calc {
      ReplaceAll(s0, Rewrites);
      ReplaceAll(s1, Rewrites[1..]);
      { assert Rewrites[1..][1..] == Rewrites[2..]; }
      ReplaceAll(s2, Rewrites[2..]);
      { assert Rewrites[2..][1..] == Rewrites[3..]; }
      ReplaceAll(s3, Rewrites[3..]);
      { assert Rewrites[3..][1..] == Rewrites[4..]; }
      ReplaceAll(s4, Rewrites[4..]);
      { assert Rewrites[4..][1..] == Rewrites[5..]; }
      ReplaceAll(s5, Rewrites[5..]);
      { assert Rewrites[5..][1..] == []; }
      s6;
    }
  }

  /** A line that starts with `function` becomes `def` + the text after its
      first `=` + `:`; without an `=`, `str.index` raises ValueError. */
  function DefLine(line: string): (r: Result<string>)
    ensures !StartsWith(line, "function") ==> r == Success(line)
    ensures StartsWith(line, "function") ==> (r.Failure? <==> '=' !in line)
    ensures r.Failure? ==> r.error == ValueError
    ensures StartsWith(line, "function") && r.Success? ==>
      var k := IndexOf(line, '=').value;
      && line[k] == '=' && '=' !in line[..k]
      && r.value == "def" + line[k + 1..] + ":"
  {
    if StartsWith(line, "function") then
      match IndexOf(line, '=')
      case None => Failure(ValueError)
      case Some(k) => Success("def" + line[k + 1..] + ":")
    else Success(line)
  }

  /** What `pythonize` makes of a line it keeps. */
  function PythonLine(line: string): (r: Result<string>)
    ensures var rewritten := Rewrite(LStrip(line));
      r.Failure? <==> StartsWith(rewritten, "function") && '=' !in rewritten
  {
    DefLine(Rewrite(LStrip(line)))
  }

  /** The rewrites leave no `^`: the `^` rewrite removes them all and no
      later rewrite brings one back. */
  lemma RewriteHasNoCaret(line: string)
    ensures '^' !in Rewrite(line)
  {
    RewriteSteps(line);
    var noSemicolon := RStrip(line, ';');
    var comment := Replace(noSemicolon, ";  %", "  %");
    var hash := Replace(comment, "% ", "# ");
    var power := Replace(hash, "^", "**");
    ReplaceRemovesChar(hash, '^', "**");
    var times := Replace(power, ".*", "*");
    ReplaceKeepsAbsence(power, ".*", "*", '^');
    var divide := Replace(times, "./", "/");
    ReplaceKeepsAbsence(times, "./", "/", '^');
    ReplaceKeepsAbsence(divide, "(i)", "[i]", '^');
  }

  /** The `def` rewrite adds only the characters of `def` and `:`. */
  lemma DefLineKeepsAbsence(line: string, ch: char)
    requires DefLine(line).Success?
    requires ch !in line && ch !in "def:"
    ensures ch !in DefLine(line).value
  {
    if StartsWith(line, "function") {
      var k := IndexOf(line, '=').value;
      var tail := line[k + 1..];
      assert forall j :: 0 <= j < |tail| ==> tail[j] == line[k + 1 + j];
      assert DefLine(line).value == "def" + tail + ":";
    }
  }

  /** No line `pythonize` produces contains `^`, a `def` line included. */
  lemma PythonLineHasNoCaret(line: string)
    requires PythonLine(line).Success?
    ensures '^' !in PythonLine(line).value
  {
    var rewritten := Rewrite(LStrip(line));
    RewriteHasNoCaret(LStrip(line));
    DefLineKeepsAbsence(rewritten, '^');
  }

  /** The loop of `pythonize` over the lines read so far, for any keep
      test and per-line conversion: the kept lines converted one by one,
      or the first failure. */
  function ConvertLines(keep: string -> bool, convert: string -> Result<string>,
                        text: seq<string>): Result<seq<string>>
  {
    if text == [] then Success([])
    else
      var init :- ConvertLines(keep, convert, text[..|text| - 1]);
      var last := text[|text| - 1];
      if !keep(last) then Success(init)
      else
        var converted :- convert(last);
        Success(init + [converted])
  }

  /** Once a line has failed, reading further lines cannot undo it. */
  lemma {:induction false} ConvertLinesFailurePersists(keep: string -> bool,
      convert: string -> Result<string>, text: seq<string>, n: nat)
    requires n <= |text|
    requires ConvertLines(keep, convert, text[..n]).Failure?
    ensures ConvertLines(keep, convert, text).Failure?
    decreases |text| - n
  {
    if n < |text| {
      assert text[..n + 1][..n] == text[..n];
      ConvertLinesFailurePersists(keep, convert, text, n + 1);
    } else {
      assert text[..n] == text;
    }
  }

  /** What the loop computes: it succeeds exactly when every kept line
      converts, and then holds one converted line per kept line, in order. */
  lemma {:induction false} ConvertLinesMeaning(keep: string -> bool,
      convert: string -> Result<string>, text: seq<string>)
    ensures var kept := Filter(keep, text);
      ConvertLines(keep, convert, text).Success? <==>
        forall k :: 0 <= k < |kept| ==> convert(kept[k]).Success?
    ensures ConvertLines(keep, convert, text).Success? ==>
      var kept := Filter(keep, text);
      && |ConvertLines(keep, convert, text).value| == |kept|
      && forall k :: 0 <= k < |kept| ==>
           ConvertLines(keep, convert, text).value[k] == convert(kept[k]).value
    decreases |text|
  {
    if text != [] {
      var init, last := text[..|text| - 1], text[|text| - 1];
      assert text == init + [last];
      FilterSnoc(keep, init, last);
      ConvertLinesMeaning(keep, convert, init);
      var keptInit, kept := Filter(keep, init), Filter(keep, text);
      assert forall k :: 0 <= k < |keptInit| ==> kept[k] == keptInit[k];
      if keep(last) {
        assert kept[|keptInit|] == last;
      } else {
        assert kept == keptInit;
      }
    }
  }

  /** `pythonize(text_mat)`. */
  method Pythonize(textMat: seq<string>) returns (r: Result<seq<string>>)
    ensures var kept := Filter(KeepMatlab, textMat);
      r.Success? <==> forall k :: 0 <= k < |kept| ==> PythonLine(kept[k]).Success?
    ensures r.Failure? ==> r.error == ValueError
    ensures r.Success? ==>
      var kept := Filter(KeepMatlab, textMat);
      && |r.value| == |kept|
      && forall k :: 0 <= k < |kept| ==> r.value[k] == PythonLine(kept[k]).value
    ensures r.Success? ==> forall k :: 0 <= k < |r.value| ==> '^' !in r.value[k]
  {
    var modifiedMat: seq<string> := [];

    for i := 0 to |textMat|
      invariant ConvertLines(KeepMatlab, PythonLine, textMat[..i]) == Success(modifiedMat)
    {
      ConvertLinesSnoc(KeepMatlab, PythonLine, textMat, i, modifiedMat);

      var line := LStrip(textMat[i]);

      if line == "end" {
        continue;
      }

      line := RStrip(line, ';');
      line := Replace(line, ";  %", "  %");

      line := Replace(line, "% ", "# ");
      line := Replace(line, "^", "**");

      line := Replace(line, ".*", "*");
      line := Replace(line, "./", "/");

      line := Replace(line, "(i)", "[i]");
      RewriteSteps(LStrip(textMat[i]));
      PythonLineSteps(textMat[i], LStrip(textMat[i]), line);

      if StartsWith(line, "function") {
        var equals := IndexOf(line, '=');
        if equals.None? {
          ConvertLinesFailurePersists(KeepMatlab, PythonLine, textMat, i + 1);
          ConvertLinesMeaning(KeepMatlab, PythonLine, textMat);
          return Failure(ValueError);
        }
        line := "def" + line[equals.value + 1..] + ":";
      }

      modifiedMat := modifiedMat + [line];
    }
    assert textMat[..|textMat|] == textMat;
    ConvertLinesMeaning(KeepMatlab, PythonLine, textMat);
    ConvertedHaveNoCaret(textMat, modifiedMat);
    return Success(modifiedMat);
  }

  /** What one more line does to the loop's result. */
  lemma ConvertLinesSnoc(keep: string -> bool, convert: string -> Result<string>,
                         text: seq<string>, i: nat, done: seq<string>)
    requires i < |text| && ConvertLines(keep, convert, text[..i]) == Success(done)
    ensures ConvertLines(keep, convert, text[..i + 1]) ==
      if !keep(text[i]) then Success(done)
      else if convert(text[i]).Failure? then Failure(convert(text[i]).error)
      else Success(done + [convert(text[i]).value])
  {
    assert text[..i + 1][..i] == text[..i];
  }

  /** No line `pythonize` returns holds a caret. */
  lemma ConvertedHaveNoCaret(textMat: seq<string>, converted: seq<string>)
    requires ConvertLines(KeepMatlab, PythonLine, textMat) == Success(converted)
    ensures forall k :: 0 <= k < |converted| ==> '^' !in converted[k]
  {
    ConvertLinesMeaning(KeepMatlab, PythonLine, textMat);
    forall k | 0 <= k < |converted|
      ensures '^' !in converted[k]
    {
      PythonLineHasNoCaret(Filter(KeepMatlab, textMat)[k]);
    }
  }

  /** `PythonLine` through its intermediate results (a proof step that keeps
      literal lines from being unfolded). */
  lemma PythonLineSteps(line: string, stripped: string, rewritten: string)
    requires LStrip(line) == stripped && Rewrite(stripped) == rewritten
    ensures PythonLine(line) == DefLine(rewritten)
  {
  }

  /** The `end` test precedes the semicolon strip, so `end;` is kept,
      as `end`. */
  lemma EndWithSemicolonKept()
    ensures KeepMatlab("end;")
    ensures PythonLine("end;") == Success("end")
  {
    assert LStrip("end;") == "end;";
    EndRewrite();
    PythonLineSteps("end;", "end;", "end");
    EndIsNoFunction();
  }

  /** `end` is not a `function` line, so the `def` rewrite leaves it alone. */
  lemma EndIsNoFunction()
    ensures DefLine("end") == Success("end")
  {
  }

  /** The semicolon strip turns `end;` into `end`, which no rewrite touches. */
  lemma EndRewrite()
    ensures Rewrite("end;") == "end"
  {
    assert RStrip("end;", ';') == "end" by {
      assert "end;"[..3] == "end";
    }
    ReplaceAllWithoutFirstChars("end", Rewrites);
  }

  /** No character that starts a MATLAB-side pattern of `pythonize`. */
  predicate Plain(s: string) {
    forall ch :: ch in s ==> ch !in ";%^.("
  }

  /** The order of the rewrites matters: `^` becomes `**` before `.*` is
      reduced to `*`, so MATLAB's element-wise power `.^` ends as `**`. */
  lemma ElementwisePowerBecomesPower(x: string, y: string)
    requires Plain(x) && Plain(y)
    ensures Rewrite(x + ".^" + y) == x + "**" + y
  {
    var s := x + ".^" + y;
    PowerLineChars(x, y);
    assert RStrip(s, ';') == s;
    RewritesInThree(s);
    ReplaceAllWithoutFirstChars(s, Rewrites[..2]);
    var power := x + ".**" + y;
    PowerRewritten(x, y);
    var times := x + "**" + y;
    ProductRewritten(x, y);
    ProductAfterPower(s, power, times);
    ReplaceAllWithoutFirstChars(times, Rewrites[4..]);
  }

  /** The characters an `x.^y` line of plain operands does and does not contain. */
  lemma PowerLineChars(x: string, y: string)
    requires Plain(x) && Plain(y)
    ensures var s := x + ".^" + y;
      && ';' !in s && '%' !in s && s[|s| - 1] != ';'
      && '^' !in x && '^' !in y && '.' !in x && '.' !in y
      && '.' !in x + "**" + y && '(' !in x + "**" + y
  {
    var s := x + ".^" + y;
    assert s[|s| - 1] in s;
  }

  /** The table read as its first two rules, the two about products and
      powers, and the last two. */
  lemma RewritesInThree(s: string)
    ensures ValidRules(Rewrites[..2]) && ValidRules(Rewrites[2..4]) && ValidRules(Rewrites[4..])
    ensures ValidRules(Rewrites) && ReplaceAll(s, Rewrites) ==
      ReplaceAll(ReplaceAll(ReplaceAll(s, Rewrites[..2]), Rewrites[2..4]), Rewrites[4..])
  {
    assert Rewrites == Rewrites[..2] + Rewrites[2..4] + Rewrites[4..];
    ReplaceAllAppend(s, Rewrites[..2], Rewrites[2..4]);
    ReplaceAllAppend(s, Rewrites[..2] + Rewrites[2..4], Rewrites[4..]);
  }

  /** The `^` rule turns `x.^y` into `x.**y`. */
  lemma PowerRewritten(x: string, y: string)
    requires '^' !in x && '^' !in y
    ensures Replace(x + ".^" + y, "^", "**") == x + ".**" + y
  {
    assert x + ".^" + y == (x + ".") + ("^" + y);
    ReplaceSkipsPrefix(x + ".", "^" + y, "^", "**");
    ReplaceAtHead(y, "^", "**");
    ReplaceWithoutFirstChar(y, "^", "**");
  }

  /** The `.*` rule then turns `x.**y` into `x**y`. */
  lemma ProductRewritten(x: string, y: string)
    requires '.' !in x && '.' !in y
    ensures Replace(x + ".**" + y, ".*", "*") == x + "**" + y
  {
    assert x + ".**" + y == x + (".*" + ("*" + y));
    ReplaceSkipsPrefix(x, ".*" + ("*" + y), ".*", "*");
    ReplaceAtHead("*" + y, ".*", "*");
    ReplaceWithoutFirstChar("*" + y, ".*", "*");
  }

  /** The two middle rules of the table, applied in turn, give the `**` line. */
  lemma ProductAfterPower(s: string, power: string, times: string)
    requires Replace(s, "^", "**") == power && Replace(power, ".*", "*") == times
    ensures ValidRules(Rewrites[2..4]) && ReplaceAll(s, Rewrites[2..4]) == times
  {
    var rules := Rewrites[2..4];
    assert rules == [Rule("^", "**"), Rule(".*", "*")];
    assert rules[1..] == [Rule(".*", "*")] && rules[1..][1..] == [];
    calc {
      ReplaceAll(s, rules);
      ReplaceAll(power, rules[1..]);
      ReplaceAll(times, rules[1..][1..]);
      times;
    }
  }

}
