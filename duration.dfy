/**
 * The duration-string parser of comp.py (`duration`), which reads goal times,
 * start times and every recorded segment time.
 *
 * The parser reads the string character by character. Digits and '.' collect
 * into a number buffer. A ':' closes the buffer as a field: the first closed
 * field is hours, every later one is minutes, and a ':' with an empty buffer
 * is skipped. Whatever is left in the buffer at the end is seconds. Every
 * other character is ignored.
 *
 * `Duration` is the character loop. `DurationSpec` is the reference
 * definition: split the kept characters at ':' and value the pieces.
 * Durations are exact `real` seconds.
 */
module Durations {
  import opened Wrappers

  /** Raised by Python's Decimal constructor on a buffer that is not a number. */
  datatype DurationError = MalformedNumber

  /** The parser's `mode` variable: which unit the next closed field has. */
  datatype Mode = Hours | Minutes

  predicate IsDigit(c: char) { '0' <= c <= '9' }

  /** Characters that go into the number buffer. */
  predicate IsNumberChar(c: char) { IsDigit(c) || c == '.' }

  /** Characters the parser does not ignore. */
  predicate IsKept(c: char) { IsNumberChar(c) || c == ':' }

  predicate AllNumberChars(t: string) { forall i :: 0 <= i < |t| ==> IsNumberChar(t[i]) }

  // ---------------------------------------------------------------------------
  // Numbers: what Python's Decimal makes of a buffer of digits and dots.
  // ---------------------------------------------------------------------------

  /** Every character is a decimal digit. */
  predicate AllDigits(t: string)
  {
    |t| == 0 || (IsDigit(t[|t| - 1]) && AllDigits(t[..|t| - 1]))
  }

  /** The whole number a string of digits spells: "125" is 125. */
  function DigitsValue(d: string): nat
    requires AllDigits(d)
  {
    if |d| == 0 then 0 else DigitsValue(d[..|d| - 1]) * 10 + (d[|d| - 1] as int - '0' as int)
  }

  function Pow10(n: nat): (p: nat)
    ensures p > 0
  {
    if n == 0 then 1 else 10 * Pow10(n - 1)
  }

  /** The value of the digits after a decimal point: ".25" is 25/100. */
  function FractionValue(d: string): (v: real)
    requires AllDigits(d)
    ensures v >= 0.0
  {
    DigitsValue(d) as real / Pow10(|d|) as real
  }

  /** Index of the last '.' in `t`, or |t| when there is none. */
  function DotIndex(t: string): (i: nat)
    ensures i <= |t|
  {
    if t == [] then 0
    else if t[|t| - 1] == '.' then |t| - 1
    else if DotIndex(t[..|t| - 1]) == |t| - 1 then |t|
    else DotIndex(t[..|t| - 1])
  }

  /**
   * The value of a buffer: an optional integer part, at most one '.', an
   * optional fraction, and at least one digit ("12", "12.", ".5", "1.25").
   * Anything else ("", ".", "1.2.3") is not a number.
   */
  function NumberValue(t: string): (r: Option<real>)
    ensures r.Some? ==> r.value >= 0.0
  {
    var k := DotIndex(t);
    PartsValue(t[..k], if k < |t| then t[k + 1..] else [])
  }

  /** The value of the digits before and after the '.'. */
  function PartsValue(whole: string, frac: string): (r: Option<real>)
    ensures r.Some? ==> r.value >= 0.0
  {
    if AllDigits(whole) && AllDigits(frac) && (whole != [] || frac != []) then
      Some(DigitsValue(whole) as real + FractionValue(frac))
    else None
  }

  // ---------------------------------------------------------------------------
  // The reference definition: fields of the string.
  // ---------------------------------------------------------------------------

  /** The characters of `s` the parser does not ignore, in order. */
  function Keep(s: string): (k: string)
  {
    if s == [] then []
    else Keep(s[..|s| - 1]) + (if IsKept(s[|s| - 1]) then [s[|s| - 1]] else [])
  }

  /** The pieces of `s` between colons, as Python's `s.split(':')`. */
  function Split(s: string): (pieces: seq<string>)
    ensures |pieces| >= 1
  {
    if s == [] then [[]]
    else
      var p := Split(s[..|s| - 1]);
      var c := s[|s| - 1];
      if c == ':' then p + [[]] else p[..|p| - 1] + [p[|p| - 1] + [c]]
  }

  /** The inverse of `Split`: the pieces glued back with ':'. */
  function JoinColon(pieces: seq<string>): (s: string)
    requires |pieces| >= 1
  {
    if |pieces| == 1 then pieces[0]
    else JoinColon(pieces[..|pieces| - 1]) + [':'] + pieces[|pieces| - 1]
  }

  function Init<T>(xs: seq<T>): seq<T> requires |xs| >= 1 { xs[..|xs| - 1] }

  function Last<T>(xs: seq<T>): T requires |xs| >= 1 { xs[|xs| - 1] }

  /** The pieces that are not empty, in order. */
  function NonEmpty(fields: seq<string>): (r: seq<string>)
  {
    if fields == [] then []
    else
      NonEmpty(fields[..|fields| - 1]) + (if Last(fields) != [] then [Last(fields)] else [])
  }

  /**
   * The seconds the closed fields contribute, or None if one is not a number:
   * the first field counts in hours, every later one in minutes.
   */
  function FieldsTotal(fields: seq<string>): (r: Option<real>)
  {
    if fields == [] then Some(0.0)
    else
      var k := |fields| - 1;
      var t := FieldsTotal(fields[..k]);
      var n := NumberValue(fields[k]);
      if t.Some? && n.Some? then
        Some(t.value + if k == 0 then n.value * 3600.0 else n.value * 60.0)
      else None
  }

  /** The colon-terminated, non-empty fields of `s`. */
  function ClosedFields(s: string): seq<string>
  {
    NonEmpty(Init(Split(Keep(s))))
  }

  /** The text after the last ':'. */
  function TrailingField(s: string): string
  {
    Last(Split(Keep(s)))
  }

  /** What `duration` returns for `s`, defined from its fields. */
  function DurationSpec(s: string): (r: Result<real, DurationError>)
  {
    FieldsValue(ClosedFields(s), TrailingField(s))
  }

  /** The closed fields plus the trailing field in seconds, or the error if one is not a number. */
  function FieldsValue(closed: seq<string>, trailing: string): (r: Result<real, DurationError>)
  {
    var fields := FieldsTotal(closed);
    var seconds := NumberValue(trailing);
    if fields.Some? && seconds.Some? then Ok(fields.value + seconds.value)
    else Err(MalformedNumber)
  }

  // ---------------------------------------------------------------------------
  // The parser itself.
  // ---------------------------------------------------------------------------

  /** comp.py's `duration`: the character loop over `mode`, `prev_num` and the total. */
  method Duration(s: string) returns (r: Result<real, DurationError>)
    ensures r == DurationSpec(s)
  {
    var total := 0.0;
    var prevNum: string := [];
    var mode := Hours;
    ghost var closed: seq<string> := [];
    var i := 0;
    while i < |s|
      invariant 0 <= i <= |s|
      invariant closed == ClosedFields(s[..i]) && prevNum == TrailingField(s[..i])
      invariant mode == (if closed == [] then Hours else Minutes)
      invariant FieldsTotal(closed) == Some(total)
    {
      var c := s[i];
      StepAt(s, i);
      if c == ':' {
        if prevNum != [] {
          var num := NumberValue(prevNum);
          if num.None? {
            FieldsTotalAppend(closed, prevNum);
            PrefixFailure(s, i + 1);
            return Err(MalformedNumber);
          }
          ghost var before := total;
          if mode == Hours {
            total := total + num.value * 60.0 * 60.0;
            mode := Minutes;
          } else {
            total := total + num.value * 60.0;
          }
          CloseField(closed, prevNum, before, num.value, total);
          closed := closed + [prevNum];
          prevNum := [];
        }
      } else if IsNumberChar(c) {
        prevNum := prevNum + [c];
      }
      i := i + 1;
    }
    assert s[..i] == s;
    ScanComplete(s, closed, prevNum, total);
    var seconds := NumberValue(prevNum);
    if seconds.None? {
      r := Err(MalformedNumber);
    } else {
      r := Ok(total + seconds.value);
    }
  }

  // ---------------------------------------------------------------------------
  // How the fields change by one character (the loop's proof).
  // ---------------------------------------------------------------------------

  lemma {:induction false} KeptOnly(s: string)
    ensures forall i :: 0 <= i < |Keep(s)| ==> IsKept(Keep(s)[i])
  {
    if s != [] {
      KeptOnly(s[..|s| - 1]);
    }
  }

  /** Every closed field is a non-empty buffer of digits and dots, and so is the trailing one, empty or not. */
  lemma FieldsAreBuffers(s: string)
    ensures forall j :: 0 <= j < |ClosedFields(s)| ==> ClosedFields(s)[j] != [] && AllNumberChars(ClosedFields(s)[j])
    ensures AllNumberChars(TrailingField(s))
  {
    KeptOnly(s);
    var pieces := Split(Keep(s));
    PiecesOfKept(Keep(s));
    NonEmptyFields(Init(pieces));
  }

  lemma {:induction false} PiecesOfKept(k: string)
    requires forall i :: 0 <= i < |k| ==> IsKept(k[i])
    ensures forall j :: 0 <= j < |Split(k)| ==> AllNumberChars(Split(k)[j])
  {
    if k != [] {
      PiecesOfKept(k[..|k| - 1]);
    }
  }

  lemma {:induction false} NonEmptyFields(fields: seq<string>)
    requires forall i :: 0 <= i < |fields| ==> AllNumberChars(fields[i])
    ensures forall i :: 0 <= i < |NonEmpty(fields)| ==>
      NonEmpty(fields)[i] != [] && AllNumberChars(NonEmpty(fields)[i])
  {
    if fields != [] {
      NonEmptyFields(fields[..|fields| - 1]);
    }
  }

  lemma KeepAppend(s: string, c: char)
    ensures Keep(s + [c]) == Keep(s) + (if IsKept(c) then [c] else [])
  {
    assert (s + [c])[..|s|] == s;
  }

  lemma SplitAppend(k: string, c: char)
    ensures Split(k + [c]) == if c == ':' then Split(k) + [[]]
                              else Init(Split(k)) + [Last(Split(k)) + [c]]
  {
    assert (k + [c])[..|k|] == k;
  }

  lemma NonEmptyAppend(fields: seq<string>, f: string)
    ensures NonEmpty(fields + [f]) == NonEmpty(fields) + (if f != [] then [f] else [])
  {
    assert (fields + [f])[..|fields|] == fields;
  }

  /** One character of input: how closed fields and the trailing field move. */
  lemma StepFields(p: string, c: char)
    ensures c == ':' ==>
      TrailingField(p + [c]) == [] &&
      ClosedFields(p + [c]) == ClosedFields(p) + (if TrailingField(p) != [] then [TrailingField(p)] else [])
    ensures c != ':' ==>
      ClosedFields(p + [c]) == ClosedFields(p) &&
      TrailingField(p + [c]) == TrailingField(p) + (if IsNumberChar(c) then [c] else [])
  {
    if c == ':' {
      StepColon(p);
    } else {
      StepOther(p, c);
    }
  }

  /** A ':' closes the trailing field (dropped when empty) and opens an empty one. */
  lemma StepColon(p: string)
    ensures TrailingField(p + [':']) == []
    ensures ClosedFields(p + [':']) == ClosedFields(p) + (if TrailingField(p) != [] then [TrailingField(p)] else [])
  {
    KeepAppend(p, ':');
    var k := Keep(p);
    assert Keep(p + [':']) == k + [':'];
    SplitAppend(k, ':');
    var sp := Split(k);
    assert Split(k + [':']) == sp + [[]];
    assert Init(sp + [[]]) == sp;
    assert sp == Init(sp) + [Last(sp)];
    NonEmptyAppend(Init(sp), Last(sp));
  }

  /** Any other character extends the trailing field when it is a digit or '.', and is ignored otherwise. */
  lemma StepOther(p: string, c: char)
    requires c != ':'
    ensures ClosedFields(p + [c]) == ClosedFields(p)
    ensures TrailingField(p + [c]) == TrailingField(p) + (if IsNumberChar(c) then [c] else [])
  {
    KeepAppend(p, c);
    var k := Keep(p);
    if IsNumberChar(c) {
      assert Keep(p + [c]) == k + [c];
      SplitAppend(k, c);
      var sp := Split(k);
      var sq := Init(sp) + [Last(sp) + [c]];
      assert Split(k + [c]) == sq;
      assert Init(sq) == Init(sp);
      assert Last(sq) == Last(sp) + [c];
    } else {
      assert Keep(p + [c]) == k + [];
      assert k + [] == k;
    }
  }

  /** StepFields at character i of s. */
  lemma StepAt(s: string, i: nat)
    requires i < |s|
    ensures s[i] == ':' ==>
      TrailingField(s[..i + 1]) == [] &&
      ClosedFields(s[..i + 1]) == ClosedFields(s[..i]) + (if TrailingField(s[..i]) != [] then [TrailingField(s[..i])] else [])
    ensures s[i] != ':' ==>
      ClosedFields(s[..i + 1]) == ClosedFields(s[..i]) &&
      TrailingField(s[..i + 1]) == TrailingField(s[..i]) + (if IsNumberChar(s[i]) then [s[i]] else [])
  {
    assert s[..i + 1] == s[..i] + [s[i]];
    StepFields(s[..i], s[i]);
  }

  /** Once the whole string is read, the result is the closed fields' total plus the trailing seconds. */
  lemma ScanComplete(s: string, closed: seq<string>, trailing: string, total: real)
    requires closed == ClosedFields(s) && trailing == TrailingField(s)
    requires FieldsTotal(closed) == Some(total)
    ensures DurationSpec(s) ==
      if NumberValue(trailing).Some? then Ok(total + NumberValue(trailing).value) else Err(MalformedNumber)
  {
  }

  lemma FieldsTotalPrefix(longer: seq<string>, shorter: seq<string>)
    requires |shorter| <= |longer| && shorter == longer[..|shorter|]
    ensures FieldsTotal(longer).Some? ==> FieldsTotal(shorter).Some?
    decreases |longer|
  {
    if |shorter| < |longer| {
      var front := longer[..|longer| - 1];
      assert shorter == front[..|shorter|];
      FieldsTotalPrefix(front, shorter);
    } else {
      assert shorter == longer;
    }
  }

  /** Closed fields only grow as the input grows. */
  lemma ClosedFieldsGrow(s: string, i: nat, j: nat)
    requires i <= j <= |s|
    ensures |ClosedFields(s[..i])| <= |ClosedFields(s[..j])|
    ensures ClosedFields(s[..i]) == ClosedFields(s[..j])[..|ClosedFields(s[..i])|]
    decreases j - i
  {
    if i < j {
      ClosedFieldsGrow(s, i, j - 1);
      assert s[..j] == s[..j - 1] + [s[j - 1]];
      StepFields(s[..j - 1], s[j - 1]);
    }
  }

  /** A field that fails to parse makes the whole string fail. */
  lemma PrefixFailure(s: string, i: nat)
    requires i <= |s|
    requires FieldsTotal(ClosedFields(s[..i])).None?
    ensures DurationSpec(s) == Err(MalformedNumber)
  {
    ClosedFieldsGrow(s, i, |s|);
    assert s[..|s|] == s;
    FieldsTotalPrefix(ClosedFields(s), ClosedFields(s[..i]));
  }

  // ---------------------------------------------------------------------------
  // Properties of the parser.
  // ---------------------------------------------------------------------------

  /** Splitting undoes joining, for pieces without colons. */
  lemma {:induction false} SplitJoin(pieces: seq<string>)
    requires |pieces| >= 1
    requires forall i :: 0 <= i < |pieces| ==> ':' !in pieces[i]
    ensures Split(JoinColon(pieces)) == pieces
  {
    if |pieces| == 1 {
      SplitNoColon(pieces[0]);
    } else {
      var front := Init(pieces);
      var last := Last(pieces);
      SplitJoin(front);
      var j := JoinColon(front) + [':'];
      SplitAppend(JoinColon(front), ':');
      assert Split(j) == front + [[]];
      SplitConcat(j, last);
      SplitNoColon(last);
      assert Init(front + [[]]) == front;
      assert Last(front + [[]]) + last == last;
      assert [last][1..] == [];
      assert pieces == front + [last];
    }
  }

  /** Joining undoes splitting. */
  lemma {:induction false} JoinSplit(s: string)
    ensures JoinColon(Split(s)) == s
  {
    if s != [] {
      var p := s[..|s| - 1];
      var c := s[|s| - 1];
      JoinSplit(p);
      var sp := Split(p);
      assert s == p + [c];
      if c == ':' {
        assert (sp + [[]])[..|sp|] == sp;
      } else if |sp| == 1 {
        assert Split(s) == [sp[0] + [c]];
      } else {
        var sq := Split(s);
        assert sq[..|sq| - 1] == sp[..|sp| - 1];
        assert JoinColon(sp) == JoinColon(sp[..|sp| - 1]) + [':'] + Last(sp);
      }
    }
  }

  lemma {:induction false} SplitNoColon(t: string)
    requires ':' !in t
    ensures Split(t) == [t]
  {
    if t != [] {
      SplitNoColon(t[..|t| - 1]);
      assert t == t[..|t| - 1] + [t[|t| - 1]];
    }
  }

  /** Splitting a concatenation glues the last piece of `x` to the first of `y`. */
  lemma {:induction false} SplitConcat(x: string, y: string)
    ensures Split(x + y) == Glue(Split(x), Split(y))
    decreases |y|
  {
    var sx := Split(x);
    if y == [] {
      assert x + y == x;
      assert Split(y) == [[]];
      assert Last(sx) + [] == Last(sx);
      assert sx == Init(sx) + [Last(sx)];
    } else {
      var y' := y[..|y| - 1];
      var c := y[|y| - 1];
      assert x + y == (x + y') + [c];
      assert y == y' + [c];
      SplitConcat(x, y');
      SplitAppend(x + y', c);
      SplitAppend(y', c);
      if c == ':' {
        GlueNewPiece(sx, Split(y'));
      } else {
        GlueExtendLast(sx, Split(y'), c);
      }
    }
  }

  /** The pieces of `x + y`, given the pieces of `x` and of `y`. */
  function Glue(px: seq<string>, py: seq<string>): seq<string>
    requires |px| >= 1 && |py| >= 1
  {
    Init(px) + [Last(px) + py[0]] + py[1..]
  }

  lemma GlueNewPiece(px: seq<string>, py: seq<string>)
    requires |px| >= 1 && |py| >= 1
    ensures Glue(px, py) + [[]] == Glue(px, py + [[]])
  {
    assert (py + [[]])[1..] == py[1..] + [[]];
  }

  lemma GlueExtendLast(px: seq<string>, py: seq<string>, c: char)
    requires |px| >= 1 && |py| >= 1
    ensures Init(Glue(px, py)) + [Last(Glue(px, py)) + [c]] ==
            Glue(px, Init(py) + [Last(py) + [c]])
  {
    var g := Glue(px, py);
    if |py| == 1 {
      assert g == Init(px) + [Last(px) + py[0]];
      assert Init(py) + [Last(py) + [c]] == [py[0] + [c]];
      assert Last(px) + py[0] + [c] == Last(px) + (py[0] + [c]);
    } else {
      assert Init(g) == Init(px) + [Last(px) + py[0]] + py[1..|py| - 1];
      assert Last(g) == Last(py);
      var py' := Init(py) + [Last(py) + [c]];
      assert py'[0] == py[0];
      assert py'[1..] == py[1..|py| - 1] + [Last(py) + [c]];
    }
  }

  lemma {:induction false} KeepConcat(x: string, y: string)
    ensures Keep(x + y) == Keep(x) + Keep(y)
    decreases |y|
  {
    if y == [] {
      assert x + y == x;
    } else {
      var y' := y[..|y| - 1];
      assert x + y == (x + y') + [y[|y| - 1]];
      KeepConcat(x, y');
      KeepAppend(x + y', y[|y| - 1]);
    }
  }

  lemma {:induction false} KeepKept(t: string)
    requires forall i :: 0 <= i < |t| ==> IsKept(t[i])
    ensures Keep(t) == t
  {
    if t != [] {
      KeepKept(t[..|t| - 1]);
      assert t == t[..|t| - 1] + [t[|t| - 1]];
    }
  }

  lemma {:induction false} NonEmptyConcat(a: seq<string>, b: seq<string>)
    ensures NonEmpty(a + b) == NonEmpty(a) + NonEmpty(b)
    decreases |b|
  {
    if b == [] {
      assert a + b == a;
    } else {
      var b' := b[..|b| - 1];
      assert a + b == (a + b') + [Last(b)];
      assert b == b' + [Last(b)];
      NonEmptyConcat(a, b');
      NonEmptyAppend(a + b', Last(b));
      NonEmptyAppend(b', Last(b));
    }
  }

  /** Characters other than digits, '.' and ':' change nothing. */
  lemma IgnoredCharacter(p: string, c: char, q: string)
    requires !IsKept(c)
    ensures DurationSpec(p + [c] + q) == DurationSpec(p + q)
  {
    KeepConcat(p + [c], q);
    KeepConcat(p, q);
    KeepAppend(p, c);
    SameKept(p + [c] + q, p + q);
  }

  /** The result depends only on the characters the parser keeps. */
  lemma SameKept(a: string, b: string)
    requires Keep(a) == Keep(b)
    ensures DurationSpec(a) == DurationSpec(b)
  {
    SameKeptFields(a, b);
    SameFields(a, b);
  }

  lemma SameKeptFields(a: string, b: string)
    requires Keep(a) == Keep(b)
    ensures ClosedFields(a) == ClosedFields(b) && TrailingField(a) == TrailingField(b)
  {
  }

  /** The result depends only on the closed fields and the trailing field. */
  lemma SameFields(a: string, b: string)
    requires ClosedFields(a) == ClosedFields(b) && TrailingField(a) == TrailingField(b)
    ensures DurationSpec(a) == DurationSpec(b)
  {
  }

  /** A ':' with nothing buffered before it changes nothing. */
  lemma EmptyFieldSkipped(p: string, q: string)
    requires TrailingField(p) == []
    ensures DurationSpec(p + [':'] + q) == DurationSpec(p + q)
  {
    var kp := Keep(p);
    var kq := Keep(q);
    KeepConcat(p + [':'], q);
    KeepConcat(p, q);
    KeepAppend(p, ':');
    assert Keep(p + [':'] + q) == kp + [':'] + kq;
    assert Keep(p + q) == kp + kq;
    SkippedColonPieces(kp, kq);
    assert ClosedFields(p + [':'] + q) == ClosedFields(p + q);
    assert TrailingField(p + [':'] + q) == TrailingField(p + q);
    SameFields(p + [':'] + q, p + q);
  }

  lemma SkippedColonPieces(kp: string, kq: string)
    requires Last(Split(kp)) == []
    ensures NonEmpty(Init(Split(kp + [':'] + kq))) == NonEmpty(Init(Split(kp + kq)))
    ensures Last(Split(kp + [':'] + kq)) == Last(Split(kp + kq))
  {
    var sp := Split(kp);
    var sq := Split(kq);
    SplitAppend(kp, ':');
    SplitConcat(kp + [':'], kq);
    SplitConcat(kp, kq);
    GlueAfterEmpty(sp, sq);
    EmptyPieceDropped(Init(sp), sq);
  }

  lemma EmptyPieceDropped(front: seq<string>, rest: seq<string>)
    requires |rest| >= 1
    ensures NonEmpty(Init(front + [[]] + rest)) == NonEmpty(Init(front + rest))
    ensures Last(front + [[]] + rest) == Last(front + rest)
  {
    assert Init(front + [[]] + rest) == (front + [[]]) + Init(rest);
    assert Init(front + rest) == front + Init(rest);
    NonEmptyConcat(front + [[]], Init(rest));
    NonEmptyConcat(front, [[]]);
    NonEmptyConcat(front, Init(rest));
    assert NonEmpty([[]]) == [] by { NonEmptyAppend([], []); }
    assert NonEmpty(front) + [] == NonEmpty(front);
  }

  lemma GlueAfterEmpty(sp: seq<string>, sq: seq<string>)
    requires |sp| >= 1 && |sq| >= 1 && Last(sp) == []
    ensures Glue(sp + [[]], sq) == Init(sp) + [[]] + sq
    ensures Glue(sp, sq) == Init(sp) + sq
  {
    assert [] + sq[0] == sq[0];
    assert [sq[0]] + sq[1..] == sq;
    assert sp == Init(sp) + [[]];
  }

  lemma {:induction false} NonEmptyAll(fields: seq<string>)
    requires forall i :: 0 <= i < |fields| ==> fields[i] != []
    ensures NonEmpty(fields) == fields
  {
    if fields != [] {
      NonEmptyAll(Init(fields));
      assert fields == Init(fields) + [Last(fields)];
    }
  }

  /**
   * A string made of number fields joined by ':' is worth its closed fields
   * (hours first, then minutes) plus its last field in seconds.
   */
  lemma JoinedFields(fields: seq<string>, t: string)
    requires forall i :: 0 <= i < |fields| ==> fields[i] != [] && AllNumberChars(fields[i])
    requires AllNumberChars(t)
    ensures ClosedFields(JoinColon(fields + [t])) == fields
    ensures TrailingField(JoinColon(fields + [t])) == t
  {
    var pieces := fields + [t];
    assert forall i :: 0 <= i < |pieces| ==> AllNumberChars(pieces[i]);
    assert forall i :: 0 <= i < |pieces| ==> ':' !in pieces[i];
    SplitJoin(pieces);
    KeepJoin(pieces);
    assert Init(pieces) == fields;
    NonEmptyAll(fields);
  }

  lemma {:induction false} KeepJoin(pieces: seq<string>)
    requires |pieces| >= 1
    requires forall i :: 0 <= i < |pieces| ==> AllNumberChars(pieces[i])
    ensures Keep(JoinColon(pieces)) == JoinColon(pieces)
  {
    if |pieces| == 1 {
      KeepKept(pieces[0]);
    } else {
      KeepJoin(pieces[..|pieces| - 1]);
      KeepConcat(JoinColon(pieces[..|pieces| - 1]) + [':'], Last(pieces));
      KeepAppend(JoinColon(pieces[..|pieces| - 1]), ':');
      KeepKept(Last(pieces));
    }
  }

  /** `a:b:c` is a hours, b minutes and c seconds. */
  lemma HoursMinutesSeconds(a: string, b: string, c: string, h: real, m: real, sec: real)
    requires a != [] && b != []
    requires AllNumberChars(a) && AllNumberChars(b) && AllNumberChars(c)
    requires NumberValue(a) == Some(h) && NumberValue(b) == Some(m) && NumberValue(c) == Some(sec)
    ensures DurationSpec(a + ":" + b + ":" + c) == Ok(h * 3600.0 + m * 60.0 + sec)
  {
    ThreeFieldsSplit(a, b, c);
    FieldsTotalAppend([], a);
    FieldsTotalAppend([a], b);
    assert [] + [a] == [a];
    assert [a] + [b] == [a, b];
  }

  lemma ThreeFieldsSplit(a: string, b: string, c: string)
    requires a != [] && b != []
    requires AllNumberChars(a) && AllNumberChars(b) && AllNumberChars(c)
    ensures ClosedFields(a + ":" + b + ":" + c) == [a, b]
    ensures TrailingField(a + ":" + b + ":" + c) == c
  {
    assert JoinColon([a, b, c]) == a + ":" + b + ":" + c by {
      assert [a, b, c][..2] == [a, b];
      assert [a, b][..1] == [a];
      assert JoinColon([a]) == a;
      assert JoinColon([a, b]) == a + [':'] + b;
      assert JoinColon([a, b, c]) == a + [':'] + b + [':'] + c;
      assert ":" == [':'];
    }
    JoinedFields([a, b], c);
    assert [a, b] + [c] == [a, b, c];
  }

  /** `a:c` is a hours and c seconds: the first field is always hours. */
  lemma HoursSeconds(a: string, c: string, h: real, sec: real)
    requires a != []
    requires AllNumberChars(a) && AllNumberChars(c)
    requires NumberValue(a) == Some(h) && NumberValue(c) == Some(sec)
    ensures DurationSpec(a + ":" + c) == Ok(h * 3600.0 + sec)
  {
    TwoFieldsSplit(a, c);
    FieldsTotalAppend([], a);
    assert [] + [a] == [a];
  }

  lemma TwoFieldsSplit(a: string, c: string)
    requires a != []
    requires AllNumberChars(a) && AllNumberChars(c)
    ensures ClosedFields(a + ":" + c) == [a]
    ensures TrailingField(a + ":" + c) == c
  {
    assert JoinColon([a, c]) == a + ":" + c by {
      assert [a, c][..1] == [a];
      assert ":" == [':'];
    }
    JoinedFields([a], c);
    assert [a] + [c] == [a, c];
  }

  /**
   * Closing one more field adds its value in its unit: hours for the first,
   * minutes for every later one (`mode` never returns to hours).
   */
  lemma FieldsTotalAppend(fields: seq<string>, f: string)
    ensures FieldsTotal(fields + [f]).Some? <==> FieldsTotal(fields).Some? && NumberValue(f).Some?
    ensures FieldsTotal(fields + [f]).Some? ==>
      FieldsTotal(fields + [f]).value ==
        FieldsTotal(fields).value + (if fields == [] then 3600.0 else 60.0) * NumberValue(f).value
  {
    var all := fields + [f];
    assert all[..|fields|] == fields;
    assert all[|all| - 1] == f;
  }

  /** The loop's update when it closes field f worth n: hours first, minutes after. */
  lemma CloseField(closed: seq<string>, f: string, total: real, n: real, next: real)
    requires FieldsTotal(closed) == Some(total) && NumberValue(f) == Some(n)
    requires next == if closed == [] then total + n * 60.0 * 60.0 else total + n * 60.0
    ensures FieldsTotal(closed + [f]) == Some(next)
  {
    FieldsTotalAppend(closed, f);
    assert n * 60.0 * 60.0 == 3600.0 * n;
  }

  /** A duration that parses is never negative. */
  lemma {:induction false} FieldsTotalNonNegative(fields: seq<string>)
    ensures FieldsTotal(fields).Some? ==> FieldsTotal(fields).value >= 0.0
  {
    if fields != [] {
      FieldsTotalNonNegative(fields[..|fields| - 1]);
    }
  }

  lemma DurationNonNegative(s: string)
    ensures DurationSpec(s).Ok? ==> DurationSpec(s).value >= 0.0
  {
    FieldsTotalNonNegative(ClosedFields(s));
  }

  /** `AllDigits` read from the front: every character is a digit. */
  lemma {:induction false} AllDigitsEach(w: string)
    ensures AllDigits(w) <==> forall i :: 0 <= i < |w| ==> IsDigit(w[i])
  {
    if w != [] {
      AllDigitsEach(w[..|w| - 1]);
    }
  }

  /** A string of digits has no '.'. */
  lemma {:induction false} NoDotInDigits(w: string)
    requires AllDigits(w)
    ensures DotIndex(w) == |w|
  {
    if w != [] {
      NoDotInDigits(w[..|w| - 1]);
    }
  }

  /** The last '.' of `t + f` is that of `t` when `f` is all digits. */
  lemma {:induction false} DotBeforeDigits(t: string, f: string)
    requires AllDigits(f) && DotIndex(t) < |t|
    ensures DotIndex(t + f) == DotIndex(t)
  {
    if f == [] {
      assert t + f == t;
    } else {
      var u := t + f;
      assert u[..|u| - 1] == t + f[..|f| - 1];
      DotBeforeDigits(t, f[..|f| - 1]);
    }
  }

  /** `DotIndex` finds the last '.': it is one, and none follows it. */
  lemma {:induction false} DotIndexIsLast(t: string)
    ensures DotIndex(t) < |t| ==> t[DotIndex(t)] == '.'
    ensures forall m :: DotIndex(t) < m < |t| ==> t[m] != '.'
  {
    if t != [] && t[|t| - 1] != '.' {
      DotIndexIsLast(t[..|t| - 1]);
    }
  }

  /** A buffer of digits is the whole number it spells. */
  lemma DigitsNumber(w: string)
    requires AllDigits(w) && w != []
    ensures NumberValue(w) == Some(DigitsValue(w) as real)
  {
    NoDotInDigits(w);
    assert w[..|w|] == w;
  }

  /** Digits, a '.', digits: the whole part plus the fraction, as long as one part is there. */
  lemma DecimalNumber(w: string, f: string)
    requires AllDigits(w) && AllDigits(f) && (w != [] || f != [])
    ensures NumberValue(w + ['.'] + f) == Some(DigitsValue(w) as real + FractionValue(f))
  {
    var u := w + ['.'];
    assert u[..|u| - 1] == w;
    assert DotIndex(u) == |w|;
    DotBeforeDigits(u, f);
    var t := w + ['.'] + f;
    assert t == u + f;
    assert t[..|w|] == w;
    assert t[|w| + 1..] == f;
  }

  /** A buffer with two dots is no number. */
  lemma TwoDots(t: string, i: nat, j: nat)
    requires i < j < |t| && t[i] == '.' && t[j] == '.'
    ensures NumberValue(t).None?
  {
    DotIndexIsLast(t);
    var k := DotIndex(t);
    assert j <= k;
    var whole := t[..k];
    assert whole[i] == '.';
    AllDigitsEach(whole);
  }

  /** "12" is 12. */
  lemma WholeExample()
    ensures NumberValue("12") == Some(12.0)
  {
    assert "12"[..1] == "1" && "1"[..0] == [];
    assert DigitsValue("12") == 12;
    DigitsNumber("12");
  }

  /** "12." is 12: a trailing '.' adds nothing. */
  lemma TrailingDotExample()
    ensures NumberValue("12.") == Some(12.0)
  {
    assert "12"[..1] == "1" && "1"[..0] == [];
    assert DigitsValue("12") == 12;
    assert FractionValue([]) == 0.0;
    DecimalNumber("12", []);
    assert "12" + ['.'] + [] == "12.";
  }

  /** ".5" is 0.5: the integer part may be missing. */
  lemma FractionExample()
    ensures NumberValue(".5") == Some(0.5)
  {
    assert "5"[..0] == [];
    assert DigitsValue("5") == 5;
    assert Pow10(1) == 10;
    assert FractionValue("5") == 0.5;
    DecimalNumber([], "5");
    assert [] + ['.'] + "5" == ".5";
  }

  /** "1.25" is 1.25. */
  lemma DecimalExample()
    ensures NumberValue("1.25") == Some(1.25)
  {
    assert "1"[..0] == [] && "25"[..1] == "2" && "2"[..0] == [];
    assert DigitsValue("1") == 1 && DigitsValue("25") == 25;
    assert Pow10(2) == 100;
    assert FractionValue("25") == 0.25;
    DecimalNumber("1", "25");
    assert "1" + ['.'] + "25" == "1.25";
  }

  /** "", "." and "1.2.3" are not numbers: Decimal raises on them. */
  lemma NotNumbers()
    ensures NumberValue("").None? && NumberValue(".").None? && NumberValue("1.2.3").None?
  {
    assert "."[..0] == [] && "."[1..] == [];
    TwoDots("1.2.3", 1, 3);
  }
}
