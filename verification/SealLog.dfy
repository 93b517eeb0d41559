/** The log of certified files: one line "name|unix time" is appended for each seal, and the reader
    keeps, for each name, the last time it finds. */
module SealLog {
  import opened Wrappers
  import opened Text
  import opened Numbers
  import opened Sequences

  datatype Seal = Seal(name: string, time: nat)

  // ---------- integers in text ----------

  predicate IsSpace(c: char) {
    c == ' ' || '\t' <= c <= '\r' || c == '\U{0085}' || c == '\U{00A0}'
  }

  /** Scan an integer: blanks, an optional sign, and at least one digit. */
  function ScanInt(s: string): Option<int> {
    if s != "" && IsSpace(s[0]) then ScanInt(s[1..])
    else
      var signed := s != "" && (s[0] == '-' || s[0] == '+');
      var digits := if signed then s[1..] else s;
      if digits == "" || !IsDigit(digits[0]) then None
      else Some(if signed && s[0] == '-' then 0 - ScanDigits(digits, 0) else ScanDigits(digits, 0))
  }

  lemma ScanIntDecimal(n: nat)
    ensures ScanInt(Decimal(n)) == Some(n)
  {
    DecimalDigits(n);
    ScanDecimal(n);
    assert IsDigit(Decimal(n)[0]);
  }

  // ---------- writing ----------

  function Line(s: Seal): string {
    s.name + "|" + Decimal(s.time)
  }

  function Log(seals: seq<Seal>): string {
    if seals == [] then "" else Log(seals[..|seals| - 1]) + Line(seals[|seals| - 1]) + "\n"
  }

  /** The lock file; it does not exist before the first seal. */
  class SealFile {
    var content: Option<string>
    ghost var seals: seq<Seal>

    ghost predicate Valid()
      reads this
    {
      if content.None? then seals == [] else content.value == Log(seals)
    }

    constructor ()
      ensures Valid() && content == None && seals == []
    {
      content, seals := None, [];
    }

    /** When the file cannot be opened the seal is dropped. */
    method StampCertifiedFile(name: string, now: nat, opens: bool)
      requires Valid()
      modifies this
      ensures Valid()
      ensures opens ==> content.Some? && seals == old(seals) + [Seal(name, now)]
      ensures !opens ==> content == old(content) && seals == old(seals)
    {
      if !opens {
        return;
      }
      var before := if content.None? then "" else content.value;
      content := Some(before + (name + "|" + Decimal(now) + "\n"));
      seals := seals + [Seal(name, now)];
      assert seals[..|seals| - 1] == old(seals);
      assert Log(old(seals)) + (name + "|" + Decimal(now) + "\n") == Log(old(seals)) + Line(Seal(name, now)) + "\n";
    }

    /** Without a lock file nothing is reported. */
    method CollectStaleCertFiles(files: seq<File>) returns (stale: seq<string>)
      requires Valid()
      ensures stale == if content.None? then [] else StaleIn(files, Read(Log(seals)))
    {
      if content.None? {
        return [];
      }
      var sealed := ReadSeals(content.value);
      stale := [];
      for i := 0 to |files|
        invariant stale == StaleIn(files[..i], sealed)
      {
        assert files[..i + 1][..i] == files[..i];
        var f := files[i];
        if f.name !in sealed || f.modTime > sealed[f.name] {
          stale := stale + [f.name];
        }
      }
      assert files[..|files|] == files;
    }
  }

  // ---------- reading ----------

  function TrimLeft(s: string): string {
    if s != "" && IsSpace(s[0]) then TrimLeft(s[1..]) else s
  }

  function TrimRight(s: string): string {
    if s != "" && IsSpace(s[|s| - 1]) then TrimRight(s[..|s| - 1]) else s
  }

  function TrimSpace(s: string): string {
    TrimRight(TrimLeft(s))
  }

  /** Split on the first '|': the name and the rest, if there is one. */
  function Cut(line: string): Option<(string, string)> {
    var i := Index(line, "|");
    if i == -1 then None else Some((line[..i], line[i + 1..]))
  }

  function Record(sealed: map<string, int>, line: string): map<string, int> {
    match Cut(line)
    case None => sealed
    case Some((name, rest)) =>
      var ts := ScanInt(rest);
      if ts.None? then sealed else sealed[name := ts.value]
  }

  function Fold(sealed: map<string, int>, lines: seq<string>): map<string, int>
    decreases lines
  {
    if lines == [] then sealed else Fold(Record(sealed, lines[0]), lines[1..])
  }

  function Read(data: string): map<string, int> {
    Fold(map[], Split(TrimSpace(data), '\n'))
  }

  method ReadSeals(data: string) returns (sealed: map<string, int>)
    ensures sealed == Read(data)
  {
    sealed := map[];
    var lines := Split(TrimSpace(data), '\n');
    for i := 0 to |lines|
      invariant Fold(map[], lines) == Fold(sealed, lines[i..])
    {
      sealed := Record(sealed, lines[i]);
    }
  }

  /** A Go file of the directory and its modification time, both in the log's terms. */
  datatype File = File(name: string, modTime: int)

  function StaleIn(files: seq<File>, sealed: map<string, int>): seq<string> {
    if files == [] then []
    else
      var f := files[|files| - 1];
      StaleIn(files[..|files| - 1], sealed)
      + if f.name !in sealed || f.modTime > sealed[f.name] then [f.name] else []
  }

  // ---------- the round trip ----------

  /** The last time each name was sealed. */
  function LastSeals(seals: seq<Seal>): map<string, int> {
    if seals == [] then map[]
    else LastSeals(seals[..|seals| - 1])[seals[|seals| - 1].name := seals[|seals| - 1].time]
  }

  /** Names that survive the format: no '|', no newline, and the first line does not start blank. */
  ghost predicate Printable(seals: seq<Seal>) {
    && (forall s :: s in seals ==> '|' !in s.name && '\n' !in s.name)
    && (seals != [] && seals[0].name != "" ==> !IsSpace(seals[0].name[0]))
  }

  lemma NotADigit(n: nat, c: char)
    requires !IsDigit(c)
    ensures c !in Decimal(n)
  {
    DecimalDigits(n);
  }

  lemma CutExactly(name: string, rest: string)
    requires '|' !in name
    ensures Cut(name + "|" + rest) == Some((name, rest))
  {
    var line, n := name + "|" + rest, |name|;
    assert OccursAt(line, "|", n);
    forall j | 0 <= j < n
      ensures !OccursAt(line, "|", j)
    {
      assert line[j..j + 1] == [name[j]];
    }
    assert line[..n] == name && line[n + 1..] == rest;
  }

  lemma RecordLine(sealed: map<string, int>, s: Seal)
    requires '|' !in s.name
    ensures Record(sealed, Line(s)) == sealed[s.name := s.time]
  {
    CutExactly(s.name, Decimal(s.time));
    ScanIntDecimal(s.time);
  }

  function Lines(seals: seq<Seal>): seq<string> {
    seq(|seals|, i requires 0 <= i < |seals| => Line(seals[i]))
  }

  lemma {:induction false} FoldAppend(sealed: map<string, int>, lines: seq<string>, last: string)
    ensures Fold(sealed, lines + [last]) == Record(Fold(sealed, lines), last)
    decreases lines
  {
    if lines == [] {
      assert [last][1..] == [];
    } else {
      assert (lines + [last])[1..] == lines[1..] + [last];
      FoldAppend(Record(sealed, lines[0]), lines[1..], last);
    }
  }

  lemma {:induction false} FoldLines(seals: seq<Seal>)
    requires forall s :: s in seals ==> '|' !in s.name
    ensures Fold(map[], Lines(seals)) == LastSeals(seals)
  {
    if seals != [] {
      var n := |seals| - 1;
      FoldLines(seals[..n]);
      assert Lines(seals) == Lines(seals[..n]) + [Line(seals[n])];
      FoldAppend(map[], Lines(seals[..n]), Line(seals[n]));
      RecordLine(LastSeals(seals[..n]), seals[n]);
    }
  }

  /** The log is its lines, each ended by a newline. */
  lemma {:induction false} LogIsJoin(seals: seq<Seal>)
    requires seals != []
    ensures Log(seals) == Join(Lines(seals), '\n') + "\n"
  {
    var n := |seals| - 1;
    assert Lines(seals) == Lines(seals[..n]) + [Line(seals[n])];
    if n == 0 {
      assert Lines(seals[..0]) == [];
      assert Lines(seals) == [Line(seals[0])];
    } else {
      LogIsJoin(seals[..n]);
      JoinConcat(Lines(seals[..n]), [Line(seals[n])], '\n');
    }
  }

  lemma {:induction false} JoinEnds(seals: seq<Seal>)
    requires seals != []
    ensures var s := Join(Lines(seals), '\n'); s != "" && s[0] == Line(seals[0])[0] && IsDigit(s[|s| - 1])
  {
    var n := |seals| - 1;
    var text := Line(seals[n]);
    DecimalDigits(seals[n].time);
    assert text[|text| - 1] == Decimal(seals[n].time)[|Decimal(seals[n].time)| - 1];
    assert Lines(seals) == Lines(seals[..n]) + [text];
    if n == 0 {
      assert Lines(seals) == [text];
    } else {
      JoinEnds(seals[..n]);
      JoinConcat(Lines(seals[..n]), [text], '\n');
    }
  }

  lemma TrimLog(seals: seq<Seal>)
    requires seals != [] && Printable(seals)
    ensures TrimSpace(Log(seals)) == Join(Lines(seals), '\n')
  {
    var s := Join(Lines(seals), '\n');
    LogIsJoin(seals);
    JoinEnds(seals);
    assert !IsSpace(s[0]);
    assert TrimLeft(s + "\n") == s + "\n";
    assert (s + "\n")[..|s|] == s;
    assert TrimRight(s) == s;
  }

  /** What was sealed is what is read: for every name, its last seal, and no other name. */
  lemma ReadRecoversSeals(seals: seq<Seal>)
    requires Printable(seals)
    ensures Read(Log(seals)) == LastSeals(seals)
  {
    if seals == [] {
      assert Split("", '\n') == [""];
      assert Cut("") == None;
    } else {
      TrimLog(seals);
      forall s | s in seals
        ensures '\n' !in Line(s)
      {
        NotADigit(s.time, '\n');
      }
      assert Free(Lines(seals), '\n');
      SplitJoin(Lines(seals), '\n');
      FoldLines(seals);
    }
  }

  /** `t` is the time of the last seal of `name`. */
  ghost predicate LastSealedAt(seals: seq<Seal>, name: string, t: int) {
    exists i :: 0 <= i < |seals| && seals[i].name == name && seals[i].time == t
                && forall j :: i < j < |seals| ==> seals[j].name != name
  }

  lemma {:induction false} LastSealsMeaning(seals: seq<Seal>, name: string)
    ensures name in LastSeals(seals) <==> exists i :: 0 <= i < |seals| && seals[i].name == name
    ensures name in LastSeals(seals) ==> LastSealedAt(seals, name, LastSeals(seals)[name])
  {
    if seals != [] {
      var n := |seals| - 1;
      LastSealsMeaning(seals[..n], name);
      if seals[n].name == name {
        assert LastSealedAt(seals, name, seals[n].time);
      } else if name in LastSeals(seals[..n]) {
        var i :| 0 <= i < n && seals[..n][i].name == name && seals[..n][i].time == LastSeals(seals[..n])[name]
                 && forall j :: i < j < n ==> seals[..n][j].name != name;
        assert seals[i].name == name && forall j :: i < j < |seals| ==> seals[j].name != name;
      }
    }
  }

  lemma {:induction false} StaleMembers(files: seq<File>, sealed: map<string, int>, f: File)
    requires f in files && forall g :: g in files && g.name == f.name ==> g == f
    ensures f.name in StaleIn(files, sealed) <==> f.name !in sealed || f.modTime > sealed[f.name]
  {
    var n := |files| - 1;
    assert files == files[..n] + [files[n]];
    if f in files[..n] {
      StaleMembers(files[..n], sealed, f);
    } else {
      NotStale(files[..n], sealed, f.name);
    }
  }

  lemma {:induction false} NotStale(files: seq<File>, sealed: map<string, int>, name: string)
    requires forall g :: g in files ==> g.name != name
    ensures name !in StaleIn(files, sealed)
  {
    if files != [] { NotStale(files[..|files| - 1], sealed, name); }
  }

  /** A file is reported stale exactly when it was never sealed or has changed since its last seal. */
  lemma StaleExactly(seals: seq<Seal>, files: seq<File>, f: File)
    requires Printable(seals)
    requires f in files && forall g :: g in files && g.name == f.name ==> g == f
    ensures f.name in StaleIn(files, Read(Log(seals))) <==>
            (forall s :: s in seals ==> s.name != f.name) || exists t :: LastSealedAt(seals, f.name, t) && f.modTime > t
  {
    ReadRecoversSeals(seals);
    LastSealsMeaning(seals, f.name);
    StaleMembers(files, LastSeals(seals), f);
    if f.name !in LastSeals(seals) {
      forall s | s in seals
        ensures s.name != f.name
      {
        var i :| 0 <= i < |seals| && seals[i] == s;
      }
    } else {
      var t := LastSeals(seals)[f.name];
      assert LastSealedAt(seals, f.name, t);
      forall t' | LastSealedAt(seals, f.name, t')
        ensures t' == t
      {
      }
    }
  }

  lemma {:induction false} FoldKeysArePlain(sealed: map<string, int>, lines: seq<string>)
    requires Free(lines, '\n') && forall k :: k in sealed ==> '|' !in k && '\n' !in k
    ensures forall k :: k in Fold(sealed, lines) ==> '|' !in k && '\n' !in k
    decreases lines
  {
    if lines != [] {
      var line := lines[0];
      var i := Index(line, "|");
      if i >= 0 {
        forall j | 0 <= j < i
          ensures line[j] != '|'
        {
          assert OccursAt(line, "|", j) <==> line[j..j + 1] == "|";
        }
        assert line in lines;
      }
      FoldKeysArePlain(Record(sealed, line), lines[1..]);
    }
  }

  /** The other half of the format's condition: no log whatever makes the reader recover a name
      that holds a '|' or a newline, so such a file is always reported stale. */
  lemma OtherNamesStayStale(data: string, files: seq<File>, f: File)
    requires '|' in f.name || '\n' in f.name
    requires f in files && forall g :: g in files && g.name == f.name ==> g == f
    ensures f.name !in Read(data) && f.name in StaleIn(files, Read(data))
  {
    JoinSplit(TrimSpace(data), '\n');
    FoldKeysArePlain(map[], Split(TrimSpace(data), '\n'));
    StaleMembers(files, Read(data), f);
  }

  // ---------- lines that are no seals ----------

  /** The blanks of Latin-1. */
  lemma SpaceExactly(c: char)
    ensures IsSpace(c) <==> c in {' ', '\t', '\n', '\U{000B}', '\U{000C}', '\r', '\U{0085}', '\U{00A0}'}
  {
  }

  ghost predicate Blank(s: string) {
    forall k :: 0 <= k < |s| ==> IsSpace(s[k])
  }

  lemma {:induction false} TrimLeftBlanks(blanks: string, s: string)
    requires Blank(blanks)
    ensures TrimLeft(blanks + s) == TrimLeft(s)
    decreases blanks
  {
    if blanks == "" {
      assert blanks + s == s;
    } else {
      assert (blanks + s)[1..] == blanks[1..] + s;
      TrimLeftBlanks(blanks[1..], s);
    }
  }

  lemma {:induction false} TrimRightBlanks(s: string, blanks: string)
    requires Blank(blanks)
    ensures TrimRight(s + blanks) == TrimRight(s)
    decreases |blanks|
  {
    if blanks == "" {
      assert s + blanks == s;
    } else {
      var n := |blanks| - 1;
      assert (s + blanks)[..|s + blanks| - 1] == s + blanks[..n];
      TrimRightBlanks(s, blanks[..n]);
    }
  }

  /** The log is read without the blanks around it. */
  lemma TrimExactly(left: string, s: string, right: string)
    requires Blank(left) && Blank(right) && (s != "" ==> !IsSpace(s[0]) && !IsSpace(s[|s| - 1]))
    ensures TrimSpace(left + (s + right)) == s
  {
    TrimLeftBlanks(left, s + right);
    if s == "" {
      assert s + right == right + "";
      TrimLeftBlanks(right, "");
    } else {
      TrimRightBlanks(s, right);
    }
  }

  /** `rest` starts with an integer: blanks, a sign or none, digits, and then anything but a digit. */
  ghost predicate StartsWith(rest: string, blanks: string, sign: string, digits: string, tail: string) {
    && rest == blanks + (sign + (digits + tail))
    && Blank(blanks) && sign in {"", "-", "+"} && digits != "" && AllDigits(digits)
    && (tail == "" || !IsDigit(tail[0]))
  }

  lemma {:induction false} SkipBlanks(blanks: string, s: string)
    requires Blank(blanks)
    ensures ScanInt(blanks + s) == ScanInt(s)
    decreases blanks
  {
    if blanks == "" {
      assert blanks + s == s;
    } else {
      assert (blanks + s)[1..] == blanks[1..] + s;
      SkipBlanks(blanks[1..], s);
    }
  }

  lemma ScanSigned(sign: string, digits: string, tail: string)
    requires sign in {"", "-", "+"} && digits != "" && AllDigits(digits) && (tail == "" || !IsDigit(tail[0]))
    ensures ScanInt(sign + (digits + tail)) ==
            Some(if sign == "-" then 0 - ScanDigits(digits, 0) else ScanDigits(digits, 0))
  {
    var s, body := sign + (digits + tail), digits + tail;
    assert IsDigit(digits[0]) && body[0] == digits[0];
    if sign == "" { assert s == body; } else { assert s[1..] == body; }
    ScanDigitsSplit(digits, tail, 0);
  }

  lemma {:induction false} DigitRun(s: string) returns (digits: string, tail: string)
    ensures s == digits + tail && AllDigits(digits) && (tail == "" || !IsDigit(tail[0]))
    ensures s != "" && IsDigit(s[0]) ==> digits != ""
  {
    if s == "" || !IsDigit(s[0]) {
      digits, tail := "", s;
    } else {
      digits, tail := DigitRun(s[1..]);
      digits := [s[0]] + digits;
    }
  }

  lemma {:induction false} ScanFinds(s: string) returns (blanks: string, sign: string, digits: string, tail: string)
    requires ScanInt(s).Some?
    ensures StartsWith(s, blanks, sign, digits, tail)
  {
    if s != "" && IsSpace(s[0]) {
      blanks, sign, digits, tail := ScanFinds(s[1..]);
      assert s == [s[0]] + s[1..];
      blanks := [s[0]] + blanks;
    } else {
      blanks := "";
      sign := if s != "" && (s[0] == '-' || s[0] == '+') then [s[0]] else "";
      digits, tail := DigitRun(s[|sign|..]);
      assert s == sign + s[|sign|..];
    }
  }

  /** A line seals a name: the name ends at the first '|', and an integer follows it. */
  lemma SealingLine(sealed: map<string, int>, name: string, rest: string,
                    blanks: string, sign: string, digits: string, tail: string)
    requires '|' !in name && StartsWith(rest, blanks, sign, digits, tail)
    ensures Record(sealed, name + "|" + rest) ==
            sealed[name := if sign == "-" then 0 - ScanDigits(digits, 0) else ScanDigits(digits, 0)]
  {
    CutExactly(name, rest);
    SkipBlanks(blanks, sign + (digits + tail));
    ScanSigned(sign, digits, tail);
  }

  lemma CutParts(line: string)
    requires Cut(line).Some?
    ensures var (name, rest) := Cut(line).value; line == name + "|" + rest && '|' !in name
  {
    var i := Index(line, "|");
    assert line[i..i + 1] == "|";
    forall j | 0 <= j < i
      ensures line[j] != '|'
    {
      assert line[j..j + 1] == [line[j]] && !OccursAt(line, "|", j);
    }
  }

  /** Every other line is skipped. */
  lemma OtherLineSkipped(sealed: map<string, int>, line: string)
    requires forall name, rest, blanks, sign, digits, tail ::
               line == name + "|" + rest && '|' !in name ==> !StartsWith(rest, blanks, sign, digits, tail)
    ensures Record(sealed, line) == sealed
  {
    if Cut(line).Some? {
      CutParts(line);
      var (name, rest) := Cut(line).value;
      if ScanInt(rest).Some? {
        var blanks, sign, digits, tail := ScanFinds(rest);
      }
    }
  }

  function Names(files: seq<File>): seq<string> {
    seq(|files|, i requires 0 <= i < |files| => files[i].name)
  }

  /** Stale files are reported in the order of the directory. */
  lemma {:induction false} StaleInOrder(files: seq<File>, sealed: map<string, int>)
    ensures Subsequence(StaleIn(files, sealed), Names(files))
  {
    if files != [] {
      var n := |files| - 1;
      var f := files[n];
      var last := if f.name !in sealed || f.modTime > sealed[f.name] then [f.name] else [];
      StaleInOrder(files[..n], sealed);
      assert Names(files) == Names(files[..n]) + [f.name];
      SubsequenceConcat(StaleIn(files[..n], sealed), Names(files[..n]), last, [f.name]);
    }
  }
}
