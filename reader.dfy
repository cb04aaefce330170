/** reader.py: reading a `.pos` network file, given as its list of lines.

    A line reader either yields a record or stops the program: by `quit()`
    (a branch line of the wrong shape) or by a Python exception (`ValueError`
    from a failed unpacking or number conversion, `IndexError` from reading
    past the last line or the last token). The first failure in reading
    order is the outcome. */
module Reader {
  import opened Wrappers
  import opened Text

  datatype Branch = Branch(
    num: int, srcBus: int, recBus: int, r: real, x: real,
    plKw: Option<real>, qlKvar: Option<real>, sNs: Option<string>)

  datatype Bus = Bus(num: int, xCoord: int, yCoord: int)

  datatype Info = Info(
    pu: int, vBase: real, sBase: real,
    branchCount: int, sectionalizingCount: int, tieCount: int,
    nodes: int, feeders: int, feederNodeIds: seq<int>,
    branches: seq<Branch>, tieSwitches: seq<Branch>, buses: seq<Bus>, arcs: seq<Branch>)

  /** How reading stops early. */
  datatype Raised = Quit | ValueError | IndexError

  /** `line.strip().split()`. */
  function Tokens(line: string): seq<string>
  {
    Split(Strip(line))
  }

  /** `int(t)`. */
  function Int(t: string): Result<int, Raised>
  {
    match ParseInt(t)
    case Some(n) => Success(n)
    case None => Failure(ValueError)
  }

  /** `float(t)`. */
  function Float(t: string): Result<real, Raised>
  {
    match ParseReal(t)
    case Some(x) => Success(x)
    case None => Failure(ValueError)
  }

  // ---------------------------------------------------------------------
  // One line each

  /** `read_branch_line`: eight tokens, or the program quits. */
  function ReadBranchLine(line: string): (r: Result<Branch, Raised>)
    ensures r == Failure(Quit) <==> |Tokens(line)| != 8
    ensures r.Success? ==> r.value.plKw.Some? && r.value.qlKvar.Some? && r.value.sNs.Some?
  {
    var ts := Tokens(line);
    if |ts| != 8 then Failure(Quit)
    else
      var num :- Int(ts[0]);
      var src :- Int(ts[1]);
      var rec :- Int(ts[2]);
      var r :- Float(ts[3]);
      var x :- Float(ts[4]);
      var pl :- Float(ts[5]);
      var ql :- Float(ts[6]);
      Success(Branch(num, src, rec, r, x, Some(pl), Some(ql), Some(ts[7])))
  }

  /** `read_switch_line`: five tokens; a switch has no load and no status. */
  function ReadSwitchLine(line: string): (r: Result<Branch, Raised>)
    ensures |Tokens(line)| != 5 ==> r == Failure(ValueError)
    ensures r.Success? ==> r.value.plKw == None && r.value.qlKvar == None && r.value.sNs == None
  {
    var ts := Tokens(line);
    if |ts| != 5 then Failure(ValueError)
    else
      var num :- Int(ts[0]);
      var src :- Int(ts[1]);
      var rec :- Int(ts[2]);
      var r :- Float(ts[3]);
      var x :- Float(ts[4]);
      Success(Branch(num, src, rec, r, x, None, None, None))
  }

  /** `read_bus_line`: three integer tokens. */
  function ReadBusLine(line: string): (r: Result<Bus, Raised>)
    ensures |Tokens(line)| != 3 ==> r == Failure(ValueError)
  {
    var ts := Tokens(line);
    if |ts| != 3 then Failure(ValueError)
    else
      var num :- Int(ts[0]);
      var x :- Int(ts[1]);
      var y :- Int(ts[2]);
      Success(Bus(num, x, y))
  }

  /** An integer written out is one token that reads back. */
  lemma IntToken(n: int)
    ensures IsWord(IntToString(n)) && Int(IntToString(n)) == Success(n)
  {
    IntToStringIsWord(n);
    ParseIntRoundTrip(n);
  }

  /** A decimal written out is one token that reads back exactly. */
  lemma FloatToken(d: Decimal)
    ensures IsWord(DecimalString(d)) && Float(DecimalString(d)) == Success(d.Value())
  {
    DecimalStringIsWord(d);
    ParseRealRoundTrip(d);
  }

  /** A branch line holding the given tokens reads as the branch they denote. */
  lemma ReadBranchTokens(line: string, t: seq<string>, num: int, src: int, rec: int,
                         r: real, x: real, pl: real, ql: real)
    requires Tokens(line) == t && |t| == 8
    requires Int(t[0]) == Success(num) && Int(t[1]) == Success(src) && Int(t[2]) == Success(rec)
    requires Float(t[3]) == Success(r) && Float(t[4]) == Success(x)
    requires Float(t[5]) == Success(pl) && Float(t[6]) == Success(ql)
    ensures ReadBranchLine(line) == Success(Branch(num, src, rec, r, x, Some(pl), Some(ql), Some(t[7])))
  {
  }

  /** Branch lines as the file writes them: tokens separated by blanks and
      a line break at the end. */
  lemma ReadBranchLineRoundTrip(line: string, num: int, src: int, rec: int, r: Decimal, x: Decimal,
                                pl: Decimal, ql: Decimal, status: string)
    requires IsWord(status)
    requires line == Join([IntToString(num), IntToString(src), IntToString(rec),
                           DecimalString(r), DecimalString(x), DecimalString(pl),
                           DecimalString(ql), status]) + "\n"
    ensures ReadBranchLine(line)
            == Success(Branch(num, src, rec, r.Value(), x.Value(),
                              Some(pl.Value()), Some(ql.Value()), Some(status)))
  {
    var t := [IntToString(num), IntToString(src), IntToString(rec),
              DecimalString(r), DecimalString(x), DecimalString(pl),
              DecimalString(ql), status];
    IntToken(num); IntToken(src); IntToken(rec);
    FloatToken(r); FloatToken(x); FloatToken(pl); FloatToken(ql);
    EightWords(line, t);
    ReadBranchTokens(line, t, num, src, rec, r.Value(), x.Value(), pl.Value(), ql.Value());
  }

  lemma ReadSwitchTokens(line: string, t: seq<string>, num: int, src: int, rec: int, r: real, x: real)
    requires Tokens(line) == t && |t| == 5
    requires Int(t[0]) == Success(num) && Int(t[1]) == Success(src) && Int(t[2]) == Success(rec)
    requires Float(t[3]) == Success(r) && Float(t[4]) == Success(x)
    ensures ReadSwitchLine(line) == Success(Branch(num, src, rec, r, x, None, None, None))
  {
  }

  lemma ReadSwitchLineRoundTrip(line: string, num: int, src: int, rec: int, r: Decimal, x: Decimal)
    requires line == Join([IntToString(num), IntToString(src), IntToString(rec),
                           DecimalString(r), DecimalString(x)]) + "\n"
    ensures ReadSwitchLine(line) == Success(Branch(num, src, rec, r.Value(), x.Value(), None, None, None))
  {
    var t := [IntToString(num), IntToString(src), IntToString(rec), DecimalString(r), DecimalString(x)];
    IntToken(num); IntToken(src); IntToken(rec);
    FloatToken(r); FloatToken(x);
    FiveWords(line, t);
    ReadSwitchTokens(line, t, num, src, rec, r.Value(), x.Value());
  }

  lemma ReadBusTokens(line: string, t: seq<string>, bus: Bus)
    requires Tokens(line) == t && |t| == 3
    requires Int(t[0]) == Success(bus.num) && Int(t[1]) == Success(bus.xCoord) && Int(t[2]) == Success(bus.yCoord)
    ensures ReadBusLine(line) == Success(bus)
  {
  }

  lemma ReadBusLineRoundTrip(line: string, bus: Bus)
    requires line == Join([IntToString(bus.num), IntToString(bus.xCoord), IntToString(bus.yCoord)]) + "\n"
    ensures ReadBusLine(line) == Success(bus)
  {
    var t := [IntToString(bus.num), IntToString(bus.xCoord), IntToString(bus.yCoord)];
    IntToken(bus.num); IntToken(bus.xCoord); IntToken(bus.yCoord);
    ThreeWords(line, t);
    ReadBusTokens(line, t, bus);
  }

  /** A line written from tokens, with its line break, splits back into them. */
  lemma TokensOfLine(line: string, ts: seq<string>)
    requires forall p | 0 <= p < |ts| :: IsWord(ts[p])
    requires line == Join(ts) + "\n"
    ensures Tokens(line) == ts
  {
    SplitStrip(Join(ts) + "\n");
    SplitTrailingSpace(Join(ts), '\n');
    SplitJoin(ts);
  }

  lemma EightWords(line: string, t: seq<string>)
    requires |t| == 8 && line == Join(t) + "\n"
    requires IsWord(t[0]) && IsWord(t[1]) && IsWord(t[2]) && IsWord(t[3])
    requires IsWord(t[4]) && IsWord(t[5]) && IsWord(t[6]) && IsWord(t[7])
    ensures Tokens(line) == t
  {
    TokensOfLine(line, t);
  }

  lemma FiveWords(line: string, t: seq<string>)
    requires |t| == 5 && line == Join(t) + "\n"
    requires IsWord(t[0]) && IsWord(t[1]) && IsWord(t[2]) && IsWord(t[3]) && IsWord(t[4])
    ensures Tokens(line) == t
  {
    TokensOfLine(line, t);
  }

  lemma ThreeWords(line: string, t: seq<string>)
    requires |t| == 3 && line == Join(t) + "\n"
    requires IsWord(t[0]) && IsWord(t[1]) && IsWord(t[2])
    ensures Tokens(line) == t
  {
    TokensOfLine(line, t);
  }

  // ---------------------------------------------------------------------
  // Sections terminated by a `.` line

  /** `line.startswith('.')`. */
  predicate Dotted(line: string)
  {
    |line| > 0 && line[0] == '.'
  }

  /** The `while not lines[k].startswith('.')` scan of the branch and switch
      sections: the records read, and the index of the terminating line. */
  function Section<T>(read: string -> Result<T, Raised>, lines: seq<string>, k: nat): Result<(seq<T>, nat), Raised>
    decreases |lines| - k
  {
    if k >= |lines| then Failure(IndexError)
    else if Dotted(lines[k]) then Success(([], k))
    else
      var item :- read(lines[k]);
      var rest :- Section(read, lines, k + 1);
      Success(([item] + rest.0, rest.1))
  }

  /** The layout of a well-formed section: from line `k`, undotted lines
      each read as the next item, up to the dotted line `e`. */
  ghost predicate SectionAt<T>(read: string -> Result<T, Raised>, lines: seq<string>, k: nat, items: seq<T>, e: nat)
  {
    && k <= e < |lines|
    && Dotted(lines[e])
    && |items| == e - k
    && forall i | k <= i < e :: !Dotted(lines[i]) && read(lines[i]) == Success(items[i - k])
  }

  lemma {:induction false} SectionIff<T>(read: string -> Result<T, Raised>, lines: seq<string>, k: nat, items: seq<T>, e: nat)
    ensures Section(read, lines, k) == Success((items, e)) <==> SectionAt(read, lines, k, items, e)
    decreases |lines| - k
  {
    if k < |lines| && !Dotted(lines[k]) {
      if Section(read, lines, k) == Success((items, e)) {
        var rest := Section(read, lines, k + 1).value;
        assert items == [read(lines[k]).value] + rest.0;
        SectionIff(read, lines, k + 1, rest.0, rest.1);
        assert SectionAt(read, lines, k, items, e) by {
          forall i | k <= i < e
            ensures !Dotted(lines[i]) && read(lines[i]) == Success(items[i - k])
          {
            if i > k {
              assert items[i - k] == rest.0[i - (k + 1)];
            }
          }
        }
      }
      if SectionAt(read, lines, k, items, e) {
        assert k < e;
        assert SectionAt(read, lines, k + 1, items[1..], e) by {
          forall i | k + 1 <= i < e
            ensures !Dotted(lines[i]) && read(lines[i]) == Success(items[1..][i - (k + 1)])
          {
            assert items[1..][i - (k + 1)] == items[i - k];
          }
        }
        SectionIff(read, lines, k + 1, items[1..], e);
        assert read(lines[k]) == Success(items[0]);
        assert [items[0]] + items[1..] == items;
      }
    }
  }

  /** A branch or switch section that reaches the end of the lines without a
      `.` line never succeeds: if every line reads, it indexes past the end. */
  lemma {:induction false} SectionUnterminated<T>(read: string -> Result<T, Raised>, lines: seq<string>, k: nat)
    requires forall i | k <= i < |lines| :: !Dotted(lines[i])
    ensures Section(read, lines, k).Failure?
    ensures (forall i | k <= i < |lines| :: read(lines[i]).Success?) ==> Section(read, lines, k) == Failure(IndexError)
    decreases |lines| - k
  {
    if k < |lines| {
      SectionUnterminated(read, lines, k + 1);
    }
  }

  /** The bus scan: it stops at a dotted line or after the last line. */
  function Run<T>(read: string -> Result<T, Raised>, lines: seq<string>, k: nat): Result<seq<T>, Raised>
    decreases |lines| - k
  {
    if k >= |lines| || Dotted(lines[k]) then Success([])
    else
      var item :- read(lines[k]);
      var rest :- Run(read, lines, k + 1);
      Success([item] + rest)
  }

  function BusRun(lines: seq<string>, k: nat): Result<seq<Bus>, Raised>
  {
    Run(ReadBusLine, lines, k)
  }

  /** The bus section: its first line must exist, as `lines[k]` is read
      before the end-of-input test. */
  function BusSection(lines: seq<string>, k: nat): Result<seq<Bus>, Raised>
  {
    if k >= |lines| then Failure(IndexError) else BusRun(lines, k)
  }

  /** The index of the first dotted line at or after `k`, or `|lines|`. */
  function FirstDot(lines: seq<string>, k: nat): (e: nat)
    ensures k <= e || |lines| < k
    decreases |lines| - k
  {
    if k >= |lines| then |lines| else if Dotted(lines[k]) then k else FirstDot(lines, k + 1)
  }

  /** The layout of a well-read run from `k` to `e`: undotted lines each
      reading as the next item, ending at a dotted line or at the end of
      the lines. */
  ghost predicate RunAt<T>(read: string -> Result<T, Raised>, lines: seq<string>, k: nat, items: seq<T>, e: nat)
  {
    && k <= e <= |lines|
    && (e < |lines| ==> Dotted(lines[e]))
    && |items| == e - k
    && forall i | k <= i < e :: !Dotted(lines[i]) && read(lines[i]) == Success(items[i - k])
  }

  ghost predicate BusesAt(lines: seq<string>, k: nat, buses: seq<Bus>, e: nat)
  {
    RunAt(ReadBusLine, lines, k, buses, e)
  }

  lemma {:induction false} RunIff<T>(read: string -> Result<T, Raised>, lines: seq<string>, k: nat, items: seq<T>)
    requires k <= |lines|
    ensures Run(read, lines, k) == Success(items) <==> RunAt(read, lines, k, items, FirstDot(lines, k))
    decreases |lines| - k
  {
    if k < |lines| && !Dotted(lines[k]) {
      var e := FirstDot(lines, k);
      assert e == FirstDot(lines, k + 1);
      if Run(read, lines, k) == Success(items) {
        var rest := Run(read, lines, k + 1).value;
        assert items == [read(lines[k]).value] + rest;
        RunIff(read, lines, k + 1, rest);
        assert RunAt(read, lines, k, items, e) by {
          forall i | k <= i < e
            ensures !Dotted(lines[i]) && read(lines[i]) == Success(items[i - k])
          {
            if i > k {
              assert items[i - k] == rest[i - (k + 1)];
            }
          }
        }
      }
      if RunAt(read, lines, k, items, e) {
        assert RunAt(read, lines, k + 1, items[1..], e) by {
          forall i | k + 1 <= i < e
            ensures !Dotted(lines[i]) && read(lines[i]) == Success(items[1..][i - (k + 1)])
          {
            assert items[1..][i - (k + 1)] == items[i - k];
          }
        }
        RunIff(read, lines, k + 1, items[1..]);
        assert read(lines[k]) == Success(items[0]);
        assert [items[0]] + items[1..] == items;
      }
    }
  }

  /** The bus loop reads given buses exactly when the lines up to the first
      dotted line, or the end, read as them. */
  lemma BusRunIff(lines: seq<string>, k: nat, buses: seq<Bus>)
    requires k <= |lines|
    ensures BusRun(lines, k) == Success(buses) <==> BusesAt(lines, k, buses, FirstDot(lines, k))
  {
    RunIff(ReadBusLine, lines, k, buses);
  }

  /** Unlike the other two, the bus section may run to the end of the
      lines: with no `.` line left it reads every remaining line. */
  lemma BusSectionToEnd(lines: seq<string>, k: nat, buses: seq<Bus>)
    requires k < |lines| && |buses| == |lines| - k
    requires forall i | k <= i < |lines| :: !Dotted(lines[i]) && ReadBusLine(lines[i]) == Success(buses[i - k])
    ensures BusSection(lines, k) == Success(buses)
  {
    FirstDotAbsent(lines, k);
    BusRunIff(lines, k, buses);
  }

  lemma {:induction false} FirstDotAbsent(lines: seq<string>, k: nat)
    requires k <= |lines|
    requires forall i | k <= i < |lines| :: !Dotted(lines[i])
    ensures FirstDot(lines, k) == |lines|
    decreases |lines| - k
  {
    if k < |lines| {
      FirstDotAbsent(lines, k + 1);
    }
  }

  // ---------------------------------------------------------------------
  // The whole file

  /** `lines[n].split()[1]`. */
  function HeaderToken(lines: seq<string>, n: nat): (r: Result<string, Raised>)
    ensures r.Success? <==> n < |lines| && |Split(lines[n])| >= 2
  {
    if n >= |lines| || |Split(lines[n])| < 2 then Failure(IndexError) else Success(Split(lines[n])[1])
  }

  /** A header value: an `int`, except on the `V_base` and `S_base` lines. */
  datatype Field = IntField(i: int) | RealField(x: real)

  /** The header lines read with `float`. */
  predicate RealLine(n: nat)
  {
    n == 1 || n == 2
  }

  /** `int(lines[n].split()[1])`, or `float(...)` on lines 1 and 2. */
  function HeaderField(lines: seq<string>, n: nat): (r: Result<Field, Raised>)
    ensures r.Success? ==> n < |lines| && |Split(lines[n])| >= 2 && (r.value.RealField? <==> RealLine(n))
    ensures r.Success? && RealLine(n) ==> ParseReal(Split(lines[n])[1]) == Some(r.value.x)
    ensures r.Success? && !RealLine(n) ==> ParseInt(Split(lines[n])[1]) == Some(r.value.i)
  {
    var t :- HeaderToken(lines, n);
    if RealLine(n) then
      var x :- Float(t);
      Success(RealField(x))
    else
      var i :- Int(t);
      Success(IntField(i))
  }

  /** Header lines `n` to 7, read in order. */
  function HeaderFields(lines: seq<string>, n: nat): (r: Result<seq<Field>, Raised>)
    requires n <= 8
    ensures r.Success? ==> |r.value| == 8 - n
    ensures r.Success? ==> forall p | 0 <= p < |r.value| :: (r.value[p].RealField? <==> RealLine(n + p))
    decreases 8 - n
  {
    if n == 8 then Success([])
    else
      var f :- HeaderField(lines, n);
      var rest :- HeaderFields(lines, n + 1);
      Success([f] + rest)
  }

  lemma {:induction false} HeaderFieldsAt(lines: seq<string>, n: nat, p: nat)
    requires n <= p < 8 && HeaderFields(lines, n).Success?
    ensures HeaderField(lines, p) == Success(HeaderFields(lines, n).value[p - n])
    decreases p - n
  {
    HeaderFieldsStep(lines, n);
    if n < p {
      HeaderFieldsAt(lines, n + 1, p);
    }
  }

  lemma HeaderFieldsStep(lines: seq<string>, n: nat)
    requires n < 8 && HeaderFields(lines, n).Success?
    ensures HeaderField(lines, n).Success? && HeaderFields(lines, n + 1).Success?
    ensures HeaderFields(lines, n).value == [HeaderField(lines, n).value] + HeaderFields(lines, n + 1).value
  {
  }

  /** `[int(i) for i in ts]`: the first token that is not a number fails. */
  function Ints(ts: seq<string>): (r: Result<seq<int>, Raised>)
    ensures r.Success? ==> |r.value| == |ts|
  {
    if ts == [] then Success([])
    else
      var n :- Int(ts[0]);
      var rest :- Ints(ts[1..]);
      Success([n] + rest)
  }

  lemma {:induction false} IntsIff(ts: seq<string>)
    ensures Ints(ts).Success? <==> forall p | 0 <= p < |ts| :: ParseInt(ts[p]).Some?
    ensures Ints(ts).Success? ==> forall p | 0 <= p < |ts| :: Some(Ints(ts).value[p]) == ParseInt(ts[p])
  {
    if ts != [] {
      IntsIff(ts[1..]);
      assert forall p | 1 <= p < |ts| :: ts[1..][p - 1] == ts[p];
      if Ints(ts).Success? {
        assert forall p | 1 <= p < |ts| :: Ints(ts).value[p] == Ints(ts[1..]).value[p - 1];
      }
    }
  }

  /** The feeder ids: every token of line 8 after the first. */
  function FeederIds(lines: seq<string>): Result<seq<int>, Raised>
  {
    if |lines| <= 8 then Failure(IndexError)
    else
      var ts := Split(lines[8]);
      Ints(if ts == [] then [] else ts[1..])
  }

  /** Lines 0 to 8 of the file. */
  datatype Header = Header(
    pu: int, vBase: real, sBase: real,
    branchCount: int, sectionalizingCount: int, tieCount: int,
    nodes: int, feeders: int, feederNodeIds: seq<int>)

  /** The three sections that follow the header. */
  datatype Sections = Sections(branches: seq<Branch>, switches: seq<Branch>, buses: seq<Bus>)

  function ReadHeader(lines: seq<string>): Result<Header, Raised>
  {
    var fs :- HeaderFields(lines, 0);
    var ids :- FeederIds(lines);
    Success(Header(fs[0].i, fs[1].x, fs[2].x, fs[3].i, fs[4].i, fs[5].i, fs[6].i, fs[7].i, ids))
  }

  /** Branches from line 10 to the first `.` line, switches from the line
      after it to the next `.` line, buses from two lines after that. */
  function ReadSections(lines: seq<string>): Result<Sections, Raised>
  {
    SectionsWith(ReadBranchLine, ReadSwitchLine, BusSection, lines)
  }

  /** The three sections in their order, with the line readers and the
      bus-section reader given. */
  function SectionsWith(readBranch: string -> Result<Branch, Raised>, readSwitch: string -> Result<Branch, Raised>,
                        busSection: (seq<string>, nat) -> Result<seq<Bus>, Raised>, lines: seq<string>): Result<Sections, Raised>
  {
    var branches :- Section(readBranch, lines, 10);
    var switches :- Section(readSwitch, lines, branches.1 + 1);
    var buses :- busSection(lines, switches.1 + 2);
    Success(Sections(branches.0, switches.0, buses))
  }

  /** `read_pos_file` on the lines of the file, in its reading order. */
  function PosFile(lines: seq<string>): Result<Info, Raised>
  {
    var h :- ReadHeader(lines);
    var s :- ReadSections(lines);
    Success(Info(h.pu, h.vBase, h.sBase, h.branchCount, h.sectionalizingCount, h.tieCount,
                 h.nodes, h.feeders, h.feederNodeIds,
                 s.branches, s.switches, s.buses, s.branches + s.switches))
  }

  /** A section ends at the first `.` line. */
  lemma {:induction false} SectionEnd<T>(read: string -> Result<T, Raised>, lines: seq<string>, k: nat, items: seq<T>, e: nat)
    requires SectionAt(read, lines, k, items, e)
    ensures e == FirstDot(lines, k)
    decreases e - k
  {
    if k < e {
      assert SectionAt(read, lines, k + 1, items[1..], e) by {
        forall i | k + 1 <= i < e
          ensures !Dotted(lines[i]) && read(lines[i]) == Success(items[1..][i - (k + 1)])
        {
          assert items[1..][i - (k + 1)] == items[i - k];
        }
      }
      SectionEnd(read, lines, k + 1, items[1..], e);
    }
  }

  /** A section that reads lies between `k` and the first `.` line. */
  lemma SectionFound<T>(read: string -> Result<T, Raised>, lines: seq<string>, k: nat)
    requires Section(read, lines, k).Success?
    ensures var r := Section(read, lines, k).value;
            r.1 == FirstDot(lines, k) && SectionAt(read, lines, k, r.0, r.1)
  {
    var r := Section(read, lines, k).value;
    SectionIff(read, lines, k, r.0, r.1);
    SectionEnd(read, lines, k, r.0, r.1);
  }

  /** A bus section that reads starts inside the file and runs to the
      first `.` line or the end. */
  lemma BusSectionFound(lines: seq<string>, k: nat)
    requires BusSection(lines, k).Success?
    ensures k < |lines| && BusesAt(lines, k, BusSection(lines, k).value, FirstDot(lines, k))
  {
    BusRunIff(lines, k, BusSection(lines, k).value);
  }

  lemma SectionsLayout(lines: seq<string>)
    requires ReadSections(lines).Success?
    ensures var s := ReadSections(lines).value;
            var e1 := FirstDot(lines, 10);
            var e2 := FirstDot(lines, e1 + 1);
            && SectionAt(ReadBranchLine, lines, 10, s.branches, e1)
            && SectionAt(ReadSwitchLine, lines, e1 + 1, s.switches, e2)
  {
    LayoutWith(ReadBranchLine, ReadSwitchLine, BusSection, lines);
  }

  /** The bus section starts two lines after the `.` line that ends the
      switch section. */
  lemma SectionsBuses(lines: seq<string>, k: nat)
    requires ReadSections(lines).Success? && k == FirstDot(lines, FirstDot(lines, 10) + 1) + 2
    ensures BusSection(lines, k) == Success(ReadSections(lines).value.buses)
  {
    LayoutWith(ReadBranchLine, ReadSwitchLine, BusSection, lines);
  }

  /** Where the sections lie, whatever the readers. */
  lemma LayoutWith(readBranch: string -> Result<Branch, Raised>, readSwitch: string -> Result<Branch, Raised>,
                   busSection: (seq<string>, nat) -> Result<seq<Bus>, Raised>, lines: seq<string>)
    requires SectionsWith(readBranch, readSwitch, busSection, lines).Success?
    ensures var s := SectionsWith(readBranch, readSwitch, busSection, lines).value;
            var e1 := FirstDot(lines, 10);
            var e2 := FirstDot(lines, e1 + 1);
            && SectionAt(readBranch, lines, 10, s.branches, e1)
            && SectionAt(readSwitch, lines, e1 + 1, s.switches, e2)
            && busSection(lines, e2 + 2) == Success(s.buses)
  {
    SectionFound(readBranch, lines, 10);
    SectionFound(readSwitch, lines, FirstDot(lines, 10) + 1);
  }

  /** Where the branch and switch sections of a file that reads lie, and
      its `Arcs`. */
  lemma PosFileLayout(lines: seq<string>)
    requires PosFile(lines).Success?
    ensures var info := PosFile(lines).value;
            var e1 := FirstDot(lines, 10);
            var e2 := FirstDot(lines, e1 + 1);
            && SectionAt(ReadBranchLine, lines, 10, info.branches, e1)
            && SectionAt(ReadSwitchLine, lines, e1 + 1, info.tieSwitches, e2)
            && info.arcs == info.branches + info.tieSwitches
  {
    SectionsLayout(lines);
  }

  /** Where the bus section of a file that reads starts. */
  lemma PosFileBuses(lines: seq<string>, k: nat)
    requires PosFile(lines).Success? && k == FirstDot(lines, FirstDot(lines, 10) + 1) + 2
    ensures BusSection(lines, k) == Success(PosFile(lines).value.buses)
  {
    SectionsBuses(lines, k);
  }

  lemma HeaderLines(lines: seq<string>)
    requires ReadHeader(lines).Success?
    ensures var h := ReadHeader(lines).value;
            && HeaderFields(lines, 0)
               == Success([IntField(h.pu), RealField(h.vBase), RealField(h.sBase), IntField(h.branchCount),
                           IntField(h.sectionalizingCount), IntField(h.tieCount), IntField(h.nodes), IntField(h.feeders)])
            && FeederIds(lines) == Success(h.feederNodeIds)
  {
    var fs := HeaderFields(lines, 0).value;
    assert RealLine(1) && RealLine(2);
    FieldList(fs);
  }

  lemma FieldList(fs: seq<Field>)
    requires |fs| == 8 && fs[0].IntField? && fs[1].RealField? && fs[2].RealField? && fs[3].IntField?
    requires fs[4].IntField? && fs[5].IntField? && fs[6].IntField? && fs[7].IntField?
    ensures fs == [IntField(fs[0].i), RealField(fs[1].x), RealField(fs[2].x), IntField(fs[3].i),
                   IntField(fs[4].i), IntField(fs[5].i), IntField(fs[6].i), IntField(fs[7].i)]
  {
  }

  lemma FeederIdsFields(lines: seq<string>)
    requires FeederIds(lines).Success?
    ensures var ids := FeederIds(lines).value;
            && 8 < |lines|
            && |ids| == (if Split(lines[8]) == [] then 0 else |Split(lines[8])| - 1)
            && forall p | 0 <= p < |ids| :: ParseInt(Split(lines[8])[p + 1]) == Some(ids[p])
  {
    var ts := Split(lines[8]);
    var rest := if ts == [] then [] else ts[1..];
    IntsIff(rest);
    assert forall p | 0 <= p < |rest| :: rest[p] == ts[p + 1];
  }

  /** The header: header line `p` (0 to 7) reads as element `p` of the
      field list (`HeaderFieldsAt`), then every token after the first on
      line 8; the sections begin after line 9. */
  lemma PosFileHeader(lines: seq<string>)
    requires PosFile(lines).Success?
    ensures var info := PosFile(lines).value;
            && 10 < |lines|
            && HeaderFields(lines, 0)
               == Success([IntField(info.pu), RealField(info.vBase), RealField(info.sBase), IntField(info.branchCount),
                           IntField(info.sectionalizingCount), IntField(info.tieCount), IntField(info.nodes),
                           IntField(info.feeders)])
            && |info.feederNodeIds| == (if Split(lines[8]) == [] then 0 else |Split(lines[8])| - 1)
            && forall p | 0 <= p < |info.feederNodeIds| :: ParseInt(Split(lines[8])[p + 1]) == Some(info.feederNodeIds[p])
  {
    HeaderLines(lines);
    FeederIdsFields(lines);
    SectionsLayout(lines);
  }

  /** A file whose lines from 10 on hold no `.` line never reads. */
  lemma PosFileUnterminated(lines: seq<string>)
    requires forall i | 10 <= i < |lines| :: !Dotted(lines[i])
    ensures PosFile(lines).Failure?
  {
    SectionUnterminated(ReadBranchLine, lines, 10);
    assert ReadSections(lines).Failure?;
  }

  // ---------------------------------------------------------------------
  // The scanning loops

  /** Items in front of a section result. */
  function Prepend<T>(items: seq<T>, r: Result<(seq<T>, nat), Raised>): Result<(seq<T>, nat), Raised>
  {
    match r
    case Failure(err) => Failure(err)
    case Success(v) => Success((items + v.0, v.1))
  }

  lemma PrependNil<T>(r: Result<(seq<T>, nat), Raised>)
    ensures Prepend([], r) == r
  {
    if r.Success? {
      assert [] + r.value.0 == r.value.0;
    }
  }

  lemma PrependPrepend<T>(a: seq<T>, b: seq<T>, r: Result<(seq<T>, nat), Raised>)
    ensures Prepend(a, Prepend(b, r)) == Prepend(a + b, r)
  {
    if r.Success? {
      assert a + (b + r.value.0) == (a + b) + r.value.0;
    }
  }

  /** The `while` loops of the branch and switch sections. */
  method ScanSection<T>(read: string -> Result<T, Raised>, lines: seq<string>, k: nat)
    returns (r: Result<(seq<T>, nat), Raised>)
    ensures r == Section(read, lines, k)
  {
    var j := k;
    var items: seq<T> := [];
    PrependNil(Section(read, lines, k));
    while j < |lines| && !Dotted(lines[j])
      invariant k <= j
      invariant Section(read, lines, k) == Prepend(items, Section(read, lines, j))
      decreases |lines| - j
    {
      var item := read(lines[j]);
      if item.Failure? {
        return Failure(item.error);
      }
      PrependPrepend(items, [item.value], Section(read, lines, j + 1));
      items := items + [item.value];
      j := j + 1;
    }
    if j >= |lines| {
      return Failure(IndexError);
    }
    r := Success((items, j));
    assert items + [] == items;
  }

  /** Items in front of a bus-run result. */
  function PrependRun<T>(items: seq<T>, r: Result<seq<T>, Raised>): Result<seq<T>, Raised>
  {
    match r
    case Failure(err) => Failure(err)
    case Success(v) => Success(items + v)
  }

  lemma PrependRunNil<T>(r: Result<seq<T>, Raised>)
    ensures PrependRun([], r) == r
  {
    if r.Success? {
      assert [] + r.value == r.value;
    }
  }

  lemma PrependRunPrependRun<T>(a: seq<T>, b: seq<T>, r: Result<seq<T>, Raised>)
    ensures PrependRun(a, PrependRun(b, r)) == PrependRun(a + b, r)
  {
    if r.Success? {
      assert a + (b + r.value) == (a + b) + r.value;
    }
  }

  /** The bus loop. Its `break` after the last line is the `j < |lines|`
      half of the loop guard; the first line of the section is read, and
      so must exist, before the test. */
  method ScanBuses(lines: seq<string>, k: nat) returns (r: Result<seq<Bus>, Raised>)
    ensures r == BusSection(lines, k)
  {
    if k >= |lines| {
      return Failure(IndexError);
    }
    var j := k;
    var buses: seq<Bus> := [];
    PrependRunNil(BusRun(lines, k));
    while j < |lines| && !Dotted(lines[j])
      invariant k <= j
      invariant BusRun(lines, k) == PrependRun(buses, BusRun(lines, j))
      decreases |lines| - j
    {
      var bus := ReadBusLine(lines[j]);
      if bus.Failure? {
        return Failure(bus.error);
      }
      PrependRunPrependRun(buses, [bus.value], BusRun(lines, j + 1));
      buses := buses + [bus.value];
      j := j + 1;
    }
    r := Success(buses);
    assert buses + [] == buses;
  }

  /** `read_pos_file`: the header fields, then the three section loops. */
  method ReadPosFile(lines: seq<string>) returns (r: Result<Info, Raised>)
    ensures r == PosFile(lines)
  {
    var h :- ReadHeader(lines);
    var branches :- ScanSection(ReadBranchLine, lines, 10);
    var switches :- ScanSection(ReadSwitchLine, lines, branches.1 + 1);
    var buses :- ScanBuses(lines, switches.1 + 2);
    r := Success(Info(h.pu, h.vBase, h.sBase, h.branchCount, h.sectionalizingCount, h.tieCount,
                      h.nodes, h.feeders, h.feederNodeIds,
                      branches.0, switches.0, buses, branches.0 + switches.0));
  }
}
