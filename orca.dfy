/** A model of the ORCA output parser: the artifact iterator `iter_files`,
    the console-text energy parser `parse_energy` and the record under which
    that parser is registered. */
module Orca {
  import opened Wrappers
  import opened LeftmostSearch
  import opened Digits
  import opened EnergyPattern
  import opened EnergySearch

  // ---------------------------------------------------------------------------
  // File types, artifacts and the artifact iterator
  // ---------------------------------------------------------------------------

  /** The raw-artifact kinds ORCA output comes in. */
  datatype OrcaFileType = Stdout | Directory {
    /** The string value of the enumeration member. */
    function Name(): string
    {
      match this
      case Stdout => "stdout"
      case Directory => "directory"
    }
  }

  /** Lookup by value, `OrcaFileType(name)`: the member whose value is `name`,
      or none for any other string. */
  function FromName(name: string): Option<OrcaFileType>
  {
    if name == "stdout" then Some(Stdout)
    else if name == "directory" then Some(Directory)
    else None
  }

  /** Values and members correspond one to one: looking up a member's value
      gives the member back, and a lookup that succeeds returns a member with
      that value. */
  lemma NameRoundTrip(t: OrcaFileType, name: string)
    ensures FromName(t.Name()) == Some(t)
    ensures FromName(name).Some? ==> FromName(name).value.Name() == name
  {
  }

  /** What an artifact carries: console text, or the path of the output directory. */
  datatype Payload = Contents(text: string) | DirPath(path: string)

  /** One `(OrcaFileType, payload)` pair produced by the iterator. */
  datatype Artifact = Artifact(kind: OrcaFileType, payload: Payload)

  /** The error raised for a directory that is missing or not a directory. */
  datatype ParserError = ParserError(message: string)

  function NotADirectory(directory: string): ParserError
  {
    ParserError("Directory " + directory + " does not exist or is not a directory.")
  }

  /** The error message names the directory: different paths give different
      messages. */
  lemma {:induction false} NotADirectoryNamesPath(a: string, b: string)
    ensures NotADirectory(a) == NotADirectory(b) <==> a == b
  {
    var head := "Directory ";
    var tail := " does not exist or is not a directory.";
    if NotADirectory(a) == NotADirectory(b) {
      var m := NotADirectory(a).message;
      assert m == head + a + tail == head + b + tail;
      assert |a| == |b|;
      assert a == m[|head|..|head| + |a|];
      assert b == m[|head|..|head| + |b|];
    }
  }

  /** Everything a consumer of the generator observes: the items it yields, in
      order, and the error it raises after the last of them, if any. */
  datatype Produced = Produced(items: seq<Artifact>, raised: Option<ParserError>)

  /** `iter_files(stdout, directory)`. The filesystem test "exists and is a
      directory" is the parameter `dirValid`. */
  function IterFiles(stdout: Option<string>, directory: Option<string>, dirValid: bool): (r: Produced)
    ensures |r.items| == (if stdout.Some? then 1 else 0) + (if directory.Some? && dirValid then 1 else 0)
    // the console text, when given, is the first item, whatever happens to the directory
    ensures stdout.Some? ==> |r.items| > 0 && r.items[0] == Artifact(Stdout, Contents(stdout.value))
    ensures stdout.None? ==> forall i :: 0 <= i < |r.items| ==> r.items[i].kind != Stdout
    // the directory item is produced exactly when the directory is given and valid, and comes last
    ensures (exists i :: 0 <= i < |r.items| && r.items[i].kind == Directory) <==> directory.Some? && dirValid
    ensures directory.Some? && dirValid ==> r.items[|r.items| - 1] == Artifact(Directory, DirPath(directory.value))
    // an invalid directory raises, after the console item
    ensures r.raised.Some? <==> directory.Some? && !dirValid
    ensures r.raised.Some? ==> r.raised.value == NotADirectory(directory.value)
    ensures stdout.None? && directory.None? ==> r == Produced([], None)
  {
    var first := if stdout.Some? then [Artifact(Stdout, Contents(stdout.value))] else [];
    if directory.None? then Produced(first, None)
    else if !dirValid then Produced(first, Some(NotADirectory(directory.value)))
    else
      var items := first + [Artifact(Directory, DirPath(directory.value))];
      assert items[|items| - 1].kind == Directory;
      Produced(items, None)
  }

  /** The points at which the generator can be suspended: before it starts,
      after the stdout `yield`, after the directory `yield`. */
  datatype Resume = AtStart | AfterStdout | AfterDirectory

  function Rank(at: Resume): nat
  {
    match at
    case AtStart => 2
    case AfterStdout => 1
    case AfterDirectory => 0
  }

  /** What one resumption of the generator does: run from `at` to the next
      `yield`, to a `raise`, or off the end of the body. */
  datatype Step = Yield(item: Artifact, next: Resume) | Raise(error: ParserError) | Exhausted

  function Next(stdout: Option<string>, directory: Option<string>, dirValid: bool, at: Resume): (s: Step)
    ensures s.Yield? ==> Rank(s.next) < Rank(at)
    decreases Rank(at)
  {
    match at
    case AtStart =>
      if stdout.Some? then Yield(Artifact(Stdout, Contents(stdout.value)), AfterStdout)
      else Next(stdout, directory, dirValid, AfterStdout)
    case AfterStdout =>
      if directory.None? then Exhausted
      else if !dirValid then Raise(NotADirectory(directory.value))
      else Yield(Artifact(Directory, DirPath(directory.value)), AfterDirectory)
    case AfterDirectory => Exhausted
  }

  /** Consuming the generator from `at` until it is exhausted or raises. */
  function Drain(stdout: Option<string>, directory: Option<string>, dirValid: bool, at: Resume): (p: Produced)
    ensures |p.items| <= Rank(at)
    decreases Rank(at)
  {
    match Next(stdout, directory, dirValid, at)
    case Yield(item, next) =>
      var rest := Drain(stdout, directory, dirValid, next);
      Produced([item] + rest.items, rest.raised)
    case Raise(e) => Produced([], Some(e))
    case Exhausted => Produced([], None)
  }

  /** The list view of `iter_files` is what a consumer collects step by step. */
  lemma {:induction false} IterFilesIsDrained(stdout: Option<string>, directory: Option<string>, dirValid: bool)
    ensures IterFiles(stdout, directory, dirValid) == Drain(stdout, directory, dirValid, AtStart)
  {
    var after := Drain(stdout, directory, dirValid, AfterStdout);
    assert after == IterFiles(None, directory, dirValid);
    if stdout.Some? {
      assert Drain(stdout, directory, dirValid, AtStart)
          == Produced([Artifact(Stdout, Contents(stdout.value))] + after.items, after.raised);
    }
  }

  /** Laziness: the first resumption yields the console text without looking
      at the directory, so that item is delivered even when the directory
      check later raises. */
  lemma StdoutYieldedBeforeDirectoryCheck(stdout: Option<string>, directory: Option<string>)
    requires stdout.Some?
    ensures Next(stdout, directory, true, AtStart) == Next(stdout, directory, false, AtStart)
    ensures Next(stdout, directory, false, AtStart) == Yield(Artifact(Stdout, Contents(stdout.value)), AfterStdout)
    ensures directory.Some? ==> Next(stdout, directory, false, AfterStdout) == Raise(NotADirectory(directory.value))
  {
  }

  // ---------------------------------------------------------------------------
  // The registration record of `parse_energy`
  // ---------------------------------------------------------------------------

  /** The calculation types named by the registration (the external enumeration
      has more members; only these three occur here). */
  datatype CalcType = Energy | Gradient | Hessian

  /** The metadata `@register` attaches to a parser. */
  datatype Registration = Registration(filetype: OrcaFileType, calctypes: set<CalcType>, target: string)

  /** The record `parse_energy` is registered with: the console artifact,
      every calculation type it applies to, and the result field it fills. */
  function ParseEnergyRegistration(): (r: Registration)
    ensures r.filetype.Name() == "stdout" && r.target == "energy"
    ensures forall c: CalcType :: c in r.calctypes
  {
    var all := {Energy, Gradient, Hessian};
    assert forall c: CalcType :: c in all by {
      forall c: CalcType ensures c in all {
        if c.Energy? {} else if c.Gradient? {} else {}
      }
    }
    Registration(Stdout, all, "energy")
  }

  /** The artifact kind `parse_energy` is registered for is the one the
      iterator yields first, and its payload is the console text itself. */
  lemma RegisteredFiletypeComesFirst(stdout: Option<string>, directory: Option<string>, dirValid: bool)
    requires stdout.Some?
    ensures var p := IterFiles(stdout, directory, dirValid);
      |p.items| > 0 && p.items[0].kind == ParseEnergyRegistration().filetype
      && p.items[0].payload == Contents(stdout.value)
  {
  }

  // ---------------------------------------------------------------------------
  // parse_energy
  // ---------------------------------------------------------------------------

  /** The pattern as the parser writes it, reported in the error. */
  const Pattern: string := "FINAL ENERGY: (-?\\d+(?:\\.\\d+)?)"

  /** The literal part of the pattern, matched case-sensitively. */
  const Prefix: string := "FINAL ENERGY: "

  lemma PrefixHasNoNewline()
    ensures NoNewline(Prefix)
  {
  }

  /** `MatchNotFoundError`, raised when the pattern occurs nowhere. */
  datatype EnergyError = MatchNotFound(pattern: string)

  /** The parsed energy: the captured token and the number it denotes. */
  datatype ParsedEnergy = ParsedEnergy(token: Token, value: real)

  /** The exact number a token denotes, read positionally: the sign, the
      integer digits, then the fraction digits. */
  function DecimalValue(tok: Token): (v: real)
    requires WellFormed(tok)
    // the integer digits give the integer part of the magnitude, the sign its direction
    ensures !tok.negative ==> Numeral(tok.intDigits) as real <= v < Numeral(tok.intDigits) as real + 1.0
    ensures tok.negative ==> -(Numeral(tok.intDigits) as real) - 1.0 < v <= -(Numeral(tok.intDigits) as real)
  {
    var magnitude := Numeral(tok.intDigits) as real + FracValue(tok.fracDigits);
    if tok.negative then -magnitude else magnitude
  }

  /** The conversion of the captured text to a number, computed as a decimal
      conversion does: all digits read as one numeral, scaled down by the
      count of fraction digits. It denotes the token's exact decimal value. */
  function ToDecimal(tok: Token): (v: real)
    requires WellFormed(tok)
    ensures v == DecimalValue(tok)
  {
    ScaledNumeralSplits(tok.intDigits, tok.fracDigits);
    var magnitude := Numeral(tok.intDigits + tok.fracDigits) as real / Pow10(|tok.fracDigits|) as real;
    if tok.negative then -magnitude else magnitude
  }

  /** `parse_energy(contents)`: the number captured by the leftmost match of
      the pattern in the console text, or a failure when there is none. */
  function ParseEnergy(contents: string): (r: Result<ParsedEnergy, EnergyError>)
    ensures r.Failure? <==> NoMatch(Prefix, contents)
    ensures r.Failure? ==> r.error == MatchNotFound(Pattern)
    ensures r.Success? ==> WellFormed(r.value.token) && r.value.value == DecimalValue(r.value.token)
    ensures r.Success? ==> exists p :: IsFirstMatch(Prefix, contents, p, r.value.token)
  {
    match FirstMatch(Prefix, contents)
    case None => Failure(MatchNotFound(Pattern))
    case Some(found) =>
      assert MatchAt(Prefix, contents[found.pos..]) == Some(found.value);
      Success(ParsedEnergy(found.value, ToDecimal(found.value)))
  }

  /** The captured token is the one the regular expression describes: the
      parse fails exactly when no position of the text opens with the prefix
      and an accepted number, and otherwise the token is accepted at the
      leftmost position that holds a match. */
  lemma ParseEnergyAccepts(contents: string)
    ensures ParseEnergy(contents).Failure?
        <==> forall k, tok :: 0 <= k <= |contents| ==> !Accepts(Prefix, contents[k..], tok)
    ensures ParseEnergy(contents).Success? ==>
              exists p :: 0 <= p <= |contents| && Accepts(Prefix, contents[p..], ParseEnergy(contents).value.token)
  {
    FirstMatchAccepts(Prefix, contents);
  }

  /** A later match never overrides an earlier one: whatever follows the
      leftmost match, the result is the leftmost match's. */
  lemma FirstMatchWins(s: string, p: nat, tok: Token)
    requires IsFirstMatch(Prefix, s, p, tok)
    ensures ParseEnergy(s) == Success(ParsedEnergy(tok, DecimalValue(tok)))
  {
    FirstMatchIsUnique(Prefix, s, p, tok);
  }

  /** Console output appended after a settled leftmost match (one followed
      by a character other than `.`, or by at least two characters) does not
      change the parsed energy. */
  lemma AppendKeepsResult(s: string, t: string, p: nat, tok: Token)
    requires IsFirstMatch(Prefix, s, p, tok)
    requires SettledAt(s, p + |Prefix| + |Text(tok)|)
    ensures ParseEnergy(s + t) == ParseEnergy(s)
  {
    AppendKeepsFirstMatch(Prefix, s, t, p, tok);
    FirstMatchWins(s, p, tok);
    FirstMatchWins(s + t, p, tok);
  }

  /** Whole lines without a match, put in front of the console text, do not
      change the parsed energy. */
  lemma PrependKeepsResult(pre: string, s: string)
    requires ParseEnergy(pre).Failure?
    requires pre == [] || pre[|pre| - 1] == '\n'
    ensures ParseEnergy(pre + s) == ParseEnergy(s)
  {
    PrefixHasNoNewline();
    PrependKeepsFirstMatch(Prefix, pre, s);
  }

  // ---------------------------------------------------------------------------
  // Worked cases
  // ---------------------------------------------------------------------------

  /** Console text that opens with an energy line gives that line's number. */
  lemma EnergyLineAtStart(r: string, tok: Token)
    requires NumberAccepts(r, tok)
    ensures ParseEnergy(Prefix + r) == Success(ParsedEnergy(tok, DecimalValue(tok)))
  {
    MatchNumberFinds(r, tok);
    MatchAtAfterLiteral(Prefix, r);
    assert (Prefix + r)[0..] == Prefix + r;
    IsFirstMatchAt(Prefix, Prefix + r, 0, tok);
    FirstMatchWins(Prefix + r, 0, tok);
  }

  lemma WaterEnergyToken()
    ensures ParseEnergy(Prefix + "-76.404459\n")
         == Success(ParsedEnergy(Token(true, "76", "404459"), DecimalValue(Token(true, "76", "404459"))))
  {
    assert NumberAccepts("-76.404459\n", Token(true, "76", "404459"));
    EnergyLineAtStart("-76.404459\n", Token(true, "76", "404459"));
  }

  lemma WaterEnergyDigits()
    ensures DecimalValue(Token(true, "76", "404459")) == -76.404459
  {
    assert Numeral("76") == 76 by { assert "76"[..1] == "7"; assert "7"[..0] == ""; }
  }

  /** A typical console line gives the exact value of its number. */
  lemma WaterEnergy()
    ensures ParseEnergy(Prefix + "-76.404459\n") == Success(ParsedEnergy(Token(true, "76", "404459"), -76.404459))
  {
    WaterEnergyToken();
    WaterEnergyDigits();
  }

  /** Of two energy lines, the first one is reported. */
  lemma FirstLineReported()
    ensures ParseEnergy(Prefix + "-1.5\n" + Prefix + "-2.0\n").Success?
    ensures ParseEnergy(Prefix + "-1.5\n" + Prefix + "-2.0\n").value.token == Token(true, "1", "5")
  {
    var rest := "-1.5\n" + Prefix + "-2.0\n";
    assert Prefix + "-1.5\n" + Prefix + "-2.0\n" == Prefix + rest;
    assert NumberAccepts(rest, Token(true, "1", "5"));
    EnergyLineAtStart(rest, Token(true, "1", "5"));
  }

  /** The prefix's first letter occurs nowhere else in it. */
  lemma PrefixLeadIsUnique()
    ensures forall m :: 1 <= m < |Prefix| ==> Prefix[m] != Prefix[0]
  {
  }

  /** Lines that do not contain the prefix's first letter, put in front of
      the console text, are skipped. */
  lemma LinesWithoutLeadSkipped(pre: string, s: string)
    requires forall i :: 0 <= i < |pre| ==> pre[i] != Prefix[0]
    requires pre == [] || pre[|pre| - 1] == '\n'
    ensures ParseEnergy(pre + s) == ParseEnergy(s)
  {
    NoLeadNoMatch(Prefix, pre);
    PrependKeepsResult(pre, s);
  }

  /** Text without the pattern is a failure naming the pattern; the prefix in
      other letter case is not the pattern. */
  lemma NoEnergyLine()
    ensures ParseEnergy("final energy: 1.0") == Failure(MatchNotFound(Pattern))
  {
    NoLeadNoMatch(Prefix, "final energy: 1.0");
  }

  /** An energy line whose number is a bare run of digits captures that run. */
  lemma DigitsLine(ds: string)
    requires |ds| > 0 && AllDigits(ds)
    ensures ParseEnergy(Prefix + ds).Success?
    ensures ParseEnergy(Prefix + ds).value.token == Token(false, ds, "")
  {
    assert Text(Token(false, ds, "")) == ds;
    EnergyLineAtStart(ds, Token(false, ds, ""));
  }

  /** Why appending needs a settled match: a digit appended right after
      the digits of a match extends the captured number. */
  lemma AppendCanExtendNumber(ds: string, d: char)
    requires |ds| > 0 && AllDigits(ds) && IsDigit(d)
    ensures ParseEnergy(Prefix + ds).Success? && ParseEnergy(Prefix + (ds + [d])).Success?
    ensures ParseEnergy(Prefix + ds).value.token == Token(false, ds, "")
    ensures ParseEnergy(Prefix + (ds + [d])).value.token == Token(false, ds + [d], "")
  {
    AllDigitsConcat(ds, [d]);
    DigitsLine(ds);
    DigitsLine(ds + [d]);
  }

  /** Why prepending needs whole lines: cut anywhere inside the prefix, an
      energy line falls into two pieces without a match that form one when
      joined. */
  lemma PrependCanFormMatch(i: nat)
    requires 0 < i < |Prefix|
    ensures ParseEnergy(Prefix[..i]).Failure?
    ensures ParseEnergy(Prefix[i..] + "5").Failure?
    ensures ParseEnergy(Prefix[..i] + (Prefix[i..] + "5")).Success?
  {
    TooShortNoMatch(Prefix, Prefix[..i]);
    PrefixLeadIsUnique();
    NoLeadNoMatch(Prefix, Prefix[i..] + "5");
    assert Prefix[..i] + (Prefix[i..] + "5") == Prefix + "5";
    assert NumberAccepts("5", Token(false, "5", ""));
    EnergyLineAtStart("5", Token(false, "5", ""));
  }
}
