/**
 * Reading elevator commands from the console: how one input line is
 * classified (blank, exit, a call with three numbers, a bad floor, a bad
 * format) and the read-again loop that returns the next request. Cursor
 * handling and screen output are not part of this model; the messages the
 * loop would print are returned as `Feedback` values instead.
 */
module ConsoleInput {
  import opened Types
  import opened Buildings

  /**
   * The runtime's text primitives the classification relies on, taken as
   * given: the whitespace test on characters, lower-casing, and parsing a
   * 32-bit integer (`None` when the text is not a number).
   */
  datatype TextRuntime = TextRuntime(
    isWhiteSpace: char -> bool,
    toLower: string -> string,
    tryParse: string -> Option<int>)

  /** The line holds nothing but whitespace, checked from its first character on; the empty line is blank. */
  predicate IsNullOrWhiteSpace(rt: TextRuntime, s: string): (r: bool)
    ensures s == [] ==> r
  {
    s == [] || (rt.isWhiteSpace(s[0]) && IsNullOrWhiteSpace(rt, s[1..]))
  }

  /**
   * A line is blank exactly when every character is whitespace, so one
   * non-whitespace character anywhere makes it not blank.
   */
  lemma {:induction false} BlankIsAllWhiteSpace(rt: TextRuntime, s: string)
    ensures IsNullOrWhiteSpace(rt, s) <==> forall i :: 0 <= i < |s| ==> rt.isWhiteSpace(s[i])
  {
    if s != [] {
      BlankIsAllWhiteSpace(rt, s[1..]);
      assert forall i :: 0 < i < |s| ==> s[i] == s[1..][i - 1];
    }
  }

  /**
   * Splitting on a separator character: every occurrence of `sep` ends a
   * piece, so two separators in a row give an empty piece and there is always
   * at least one piece.
   */
  function Split(s: string, sep: char): (parts: seq<string>)
    ensures |parts| >= 1
  {
    if s == [] then [""]
    else
      var rest := Split(s[1..], sep);
      if s[0] == sep then [""] + rest else [[s[0]] + rest[0]] + rest[1..]
  }

  /** The pieces glued back together with `sep` between neighbours. */
  function Join(parts: seq<string>, sep: char): string
    requires |parts| >= 1
  {
    if |parts| == 1 then parts[0] else parts[0] + [sep] + Join(parts[1..], sep)
  }

  /** Joining the pieces of a split gives back the line. */
  lemma {:induction false} JoinSplit(s: string, sep: char)
    ensures Join(Split(s, sep), sep) == s
  {
    if s != [] {
      JoinSplit(s[1..], sep);
      var rest := Split(s[1..], sep);
      if s[0] == sep {
        assert Split(s, sep)[1..] == rest;
      } else {
        var parts := Split(s, sep);
        if |rest| == 1 {
          assert parts == [[s[0]] + rest[0]];
        } else {
          assert parts[1..] == rest[1..];
          assert Join(rest, sep) == rest[0] + [sep] + Join(rest[1..], sep);
        }
      }
    }
  }

  /** No piece of a split contains the separator. */
  lemma {:induction false} SplitPiecesHaveNoSeparator(s: string, sep: char)
    ensures forall p :: p in Split(s, sep) ==> sep !in p
  {
    if s != [] {
      SplitPiecesHaveNoSeparator(s[1..], sep);
      var rest := Split(s[1..], sep);
      if s[0] != sep {
        assert sep !in rest[0];
        assert forall p :: p in rest[1..] ==> p in rest;
      }
    }
  }

  /** Splitting a line that starts with a separator-free text `p`: `p` opens the first piece. */
  lemma {:induction false} SplitPrefix(p: string, tail: string, sep: char)
    requires sep !in p
    ensures Split(p + tail, sep) == [p + Split(tail, sep)[0]] + Split(tail, sep)[1..]
  {
    var pieces := Split(tail, sep);
    if p != [] {
      assert p == [p[0]] + p[1..] && p[0] != sep;
      assert (p + tail)[0] == p[0] && (p + tail)[1..] == p[1..] + tail;
      SplitPrefix(p[1..], tail, sep);
      var rest := Split(p[1..] + tail, sep);
      assert rest[0] == p[1..] + pieces[0] && rest[1..] == pieces[1..];
      assert Split(p + tail, sep) == [[p[0]] + rest[0]] + rest[1..];
      assert [p[0]] + (p[1..] + pieces[0]) == p + pieces[0];
    } else {
      assert p + tail == tail && p + pieces[0] == pieces[0];
      assert pieces == [pieces[0]] + pieces[1..];
    }
  }

  /** Splitting what was joined from separator-free pieces gives back the pieces. */
  lemma {:induction false} SplitJoin(parts: seq<string>, sep: char)
    requires |parts| >= 1
    requires forall i :: 0 <= i < |parts| ==> sep !in parts[i]
    ensures Split(Join(parts, sep), sep) == parts
  {
    if |parts| == 1 {
      SplitPrefix(parts[0], [], sep);
      assert parts[0] + [] == parts[0];
      assert Split([], sep) == [""];
      assert parts[0] + "" == parts[0];
    } else {
      var tail := Join(parts[1..], sep);
      SplitJoin(parts[1..], sep);
      SplitPrefix(parts[0], [sep] + tail, sep);
      assert parts[0] + [sep] + tail == parts[0] + ([sep] + tail);
      assert Split([sep] + tail, sep) == [""] + Split(tail, sep) by {
        assert ([sep] + tail)[1..] == tail;
      }
      assert Join(parts, sep) == parts[0] + ([sep] + tail);
      assert parts[0] + "" == parts[0];
      assert parts == [parts[0]] + parts[1..];
    }
  }

  /** Two separators in a row give an empty piece, and never as the first piece. */
  lemma {:induction false} DoubleSeparatorGivesEmptyPiece(s: string, sep: char, k: nat)
    requires k + 1 < |s| && s[k] == sep && s[k + 1] == sep
    ensures exists j :: 1 <= j < |Split(s, sep)| && Split(s, sep)[j] == ""
  {
    var rest := Split(s[1..], sep);
    if k == 0 {
      assert Split(s, sep) == [""] + rest;
      assert s[1..][0] == sep && s[1..][1..] == s[2..];
      assert rest == [""] + Split(s[2..], sep);
      assert Split(s, sep)[1] == "";
    } else {
      DoubleSeparatorGivesEmptyPiece(s[1..], sep, k - 1);
      var j :| 1 <= j < |rest| && rest[j] == "";
      if s[0] == sep {
        assert Split(s, sep) == [""] + rest;
        assert Split(s, sep)[j + 1] == "";
      } else {
        assert Split(s, sep) == [[s[0]] + rest[0]] + rest[1..];
        assert Split(s, sep)[j] == rest[j];
      }
    }
  }

  /** What one input line means. */
  datatype Command =
    | Skip                              // blank line: read again
    | Exit                              // stop the simulation
    | Call(request: ElevatorRequest)    // a well-formed request with valid floors
    | InvalidFloor                      // well-formed, but a floor is outside the building
    | InvalidFormat                     // anything else

  /**
   * Classify one line: blank lines are skipped; a first space-separated token
   * that lower-cases to "exit" stops; "call" with exactly four tokens whose
   * last three parse as integers is a request when both floors exist in the
   * building and an invalid-floor error otherwise; everything else is a
   * format error. The passenger count is not range-checked.
   */
  function Classify(rt: TextRuntime, b: Building, input: string): (c: Command)
    ensures c.Skip? <==> IsNullOrWhiteSpace(rt, input)
    ensures c.Exit? <==> !IsNullOrWhiteSpace(rt, input) && rt.toLower(Split(input, ' ')[0]) == "exit"
    ensures (c.Call? || c.InvalidFloor?) ==>
      var parts := Split(input, ' ');
      && |parts| == 4 && rt.toLower(parts[0]) == "call"
      && rt.tryParse(parts[1]).Some? && rt.tryParse(parts[2]).Some? && rt.tryParse(parts[3]).Some?
    ensures c.Call? ==>
      var parts := Split(input, ' ');
      && c.request == ElevatorRequest(rt.tryParse(parts[1]).value, rt.tryParse(parts[2]).value,
                                      rt.tryParse(parts[3]).value)
      && b.IsValidFloor(c.request.FromFloor) && b.IsValidFloor(c.request.ToFloor)
    ensures c.InvalidFloor? ==>
      var parts := Split(input, ' ');
      !b.IsValidFloor(rt.tryParse(parts[1]).value) || !b.IsValidFloor(rt.tryParse(parts[2]).value)
  {
    if IsNullOrWhiteSpace(rt, input) then Skip
    else
      var parts := Split(input, ' ');
      if rt.toLower(parts[0]) == "exit" then Exit
      else if rt.toLower(parts[0]) == "call" && |parts| == 4 then
        match (rt.tryParse(parts[1]), rt.tryParse(parts[2]), rt.tryParse(parts[3]))
        case (Some(fromFloor), Some(toFloor), Some(passengers)) =>
          if !b.IsValidFloor(fromFloor) || !b.IsValidFloor(toFloor) then InvalidFloor
          else Call(ElevatorRequest(fromFloor, toFloor, passengers))
        case _ => InvalidFormat
      else InvalidFormat
  }

  /** A first token reading "exit" in any letter case stops the simulation, whatever follows it. */
  lemma ExitWhateverFollows(rt: TextRuntime, b: Building, first: string, rest: string)
    requires ' ' !in first && !IsNullOrWhiteSpace(rt, first)
    requires rt.toLower(first) == "exit"
    ensures Classify(rt, b, first) == Exit
    ensures Classify(rt, b, first + " " + rest) == Exit
  {
    SplitPrefix(first, [], ' ');
    assert first + [] == first;
    SplitPrefix(first, " " + rest, ' ');
    assert first + " " + rest == first + (" " + rest);
    assert !IsNullOrWhiteSpace(rt, first + " " + rest) by {
      BlankIsAllWhiteSpace(rt, first);
      BlankIsAllWhiteSpace(rt, first + " " + rest);
      var i :| 0 <= i < |first| && !rt.isWhiteSpace(first[i]);
      assert (first + " " + rest)[i] == first[i];
    }
  }

  /** A joined line whose first piece is not blank is not blank either. */
  lemma JoinStartsWithFirst(rt: TextRuntime, parts: seq<string>, sep: char)
    requires |parts| >= 1 && !IsNullOrWhiteSpace(rt, parts[0])
    ensures !IsNullOrWhiteSpace(rt, Join(parts, sep))
  {
    BlankIsAllWhiteSpace(rt, parts[0]);
    BlankIsAllWhiteSpace(rt, Join(parts, sep));
    var i :| 0 <= i < |parts[0]| && !rt.isWhiteSpace(parts[0][i]);
    if |parts| > 1 {
      assert Join(parts, sep) == parts[0] + ([sep] + Join(parts[1..], sep));
    }
    assert Join(parts, sep)[i] == parts[0][i];
  }

  /**
   * "call" (any case) followed by three single-space-separated integers is a
   * request carrying exactly those integers when both floors exist, and an
   * invalid-floor error otherwise. The passenger count may be zero or negative.
   */
  lemma WellFormedCall(rt: TextRuntime, b: Building, tokens: seq<string>)
    requires |tokens| == 4
    requires forall i :: 0 <= i < 4 ==> ' ' !in tokens[i]
    requires !IsNullOrWhiteSpace(rt, tokens[0]) && rt.toLower(tokens[0]) == "call"
    requires rt.tryParse(tokens[1]).Some? && rt.tryParse(tokens[2]).Some? && rt.tryParse(tokens[3]).Some?
    ensures var request := ElevatorRequest(rt.tryParse(tokens[1]).value, rt.tryParse(tokens[2]).value,
                                           rt.tryParse(tokens[3]).value);
      Classify(rt, b, Join(tokens, ' ')) ==
        if b.IsValidFloor(request.FromFloor) && b.IsValidFloor(request.ToFloor) then Call(request)
        else InvalidFloor
  {
    SplitJoin(tokens, ' ');
    JoinStartsWithFirst(rt, tokens, ' ');
  }

  /**
   * A line with two spaces in a row is never a request: the empty token between
   * them is not a number (given that the empty text does not parse).
   */
  lemma ConsecutiveSpacesRejected(rt: TextRuntime, b: Building, line: string, k: nat)
    requires rt.tryParse("") == None
    requires k + 1 < |line| && line[k] == ' ' && line[k + 1] == ' '
    ensures !Classify(rt, b, line).Call?
  {
    DoubleSeparatorGivesEmptyPiece(line, ' ', k);
  }

  /** The message printed before reading again. */
  datatype Feedback = InvalidFloorNumber | InvalidInputFormat

  /** What one call of the reader returns. */
  datatype Reading =
    | Requested(request: ElevatorRequest)
    | ExitRequested                       // the termination signal (null)
    | InputExhausted                      // no line left to read

  /** Whether a line ends the reading loop. */
  predicate Ends(c: Command)
  {
    c.Exit? || c.Call?
  }

  /** No line from position `lo` up to `hi` is an exit or a request. */
  predicate NoneEnds(rt: TextRuntime, b: Building, lines: seq<string>, lo: nat, hi: nat)
    requires lo <= hi <= |lines|
    decreases hi - lo
  {
    hi == lo || (NoneEnds(rt, b, lines, lo, hi - 1) && !Ends(Classify(rt, b, lines[hi - 1])))
  }

  /** `NoneEnds` says of every line in the range that it is neither an exit nor a request. */
  lemma {:induction false} NoneEndsMeans(rt: TextRuntime, b: Building, lines: seq<string>, lo: nat, hi: nat)
    requires lo <= hi <= |lines|
    ensures NoneEnds(rt, b, lines, lo, hi) <==> forall k :: lo <= k < hi ==> !Ends(Classify(rt, b, lines[k]))
    decreases hi - lo
  {
    if hi > lo {
      NoneEndsMeans(rt, b, lines, lo, hi - 1);
    }
  }

  /** The message printed for one classified line, if any. */
  function Message(c: Command): seq<Feedback>
  {
    match c
    case InvalidFloor => [InvalidFloorNumber]
    case InvalidFormat => [InvalidInputFormat]
    case _ => []
  }

  /** The messages printed while reading the lines from position `lo` up to `hi`, in order. */
  function FeedbackOf(rt: TextRuntime, b: Building, lines: seq<string>, lo: nat, hi: nat): seq<Feedback>
    requires lo <= hi <= |lines|
    decreases hi - lo
  {
    if hi == lo then [] else FeedbackOf(rt, b, lines, lo, hi - 1) + Message(Classify(rt, b, lines[hi - 1]))
  }

  /**
   * Read lines from position `pos` until one is an exit or a request. Blank
   * lines are skipped silently; bad floors and bad formats produce a message
   * and the next line is read. `next` is the position after the last line read.
   */
  method GetNextRequest(rt: TextRuntime, b: Building, lines: seq<string>, pos: nat)
    returns (r: Reading, next: nat, feedback: seq<Feedback>)
    requires pos <= |lines|
    ensures pos <= next <= |lines|
    ensures r.InputExhausted? <==> forall k :: pos <= k < |lines| ==> !Ends(Classify(rt, b, lines[k]))
    ensures r.InputExhausted? ==> next == |lines|
    ensures !r.InputExhausted? ==>
      pos < next && forall k :: pos <= k < next - 1 ==> !Ends(Classify(rt, b, lines[k]))
    ensures r.Requested? ==> Classify(rt, b, lines[next - 1]) == Call(r.request)
    ensures r.ExitRequested? ==> Classify(rt, b, lines[next - 1]) == Exit
    ensures feedback == FeedbackOf(rt, b, lines, pos, next)
  {
    next, feedback := pos, [];
    while next < |lines|
      invariant pos <= next <= |lines|
      invariant NoneEnds(rt, b, lines, pos, next)
      invariant feedback == FeedbackOf(rt, b, lines, pos, next)
    {
      var c := Classify(rt, b, lines[next]);
      next := next + 1;
      match c
      case Skip =>
      case Exit =>
        NoneEndsMeans(rt, b, lines, pos, next - 1);
        return ExitRequested, next, feedback;
      case Call(request) =>
        NoneEndsMeans(rt, b, lines, pos, next - 1);
        return Requested(request), next, feedback;
      case InvalidFloor =>
        feedback := feedback + [InvalidFloorNumber];
      case InvalidFormat =>
        feedback := feedback + [InvalidInputFormat];
    }
    NoneEndsMeans(rt, b, lines, pos, next);
    r := InputExhausted;
  }
}
