/**
 * Log redaction (0x00-personal_data/filtered_logger.py, `filter_datum`). For each field
 * name in turn, the message is rewritten by
 *   `re.sub('(?<=SEP)FIELD=[^SEP]+(?=SEP)', '{}={}', message).format(field, redaction)`,
 * so a `field=value` is masked only when a separator stands on both sides of it. The
 * regular-expression substitution is modelled as the left-to-right scan Python performs,
 * and `str.format` as the parser of `{}`, `{{` and `}}`; `None` stands for an exception.
 */
module PersonalData {
  import opened Wrappers
  import opened Text

  /** `RedactingFormatter.REDACTION`, `RedactingFormatter.SEPARATOR` and `PII_FIELDS`. */
  const Redaction := "***"
  const Separator := ';'
  const PiiFields: seq<string> := ["name", "email", "phone", "ssn", "password"]

  /**
   * A separator for which the pattern means what it says: `re.escape` leaves it alone and it
   * is not special inside `[^...]`. The formatter's `;` is one.
   */
  predicate PlainSeparator(sep: char)
  {
    sep !in "()[]{}?*+-|^$\\.&~# \t\n\r\U{0B}\U{0C}"
  }

  predicate BraceFree(s: string)
  {
    '{' !in s && '}' !in s
  }

  // ---------------------------------------------------------------------------------------
  // re.sub

  /**
   * The length of the match of `(?<=sep)field=[^sep]+(?=sep)` at the start of `s`, where
   * `afterSep` says whether the character just before `s` is the separator. The greedy
   * `[^sep]+` takes the whole run up to the next separator, and the look-ahead needs one.
   */
  function MatchAt(afterSep: bool, s: string, field: string, sep: char): (r: Option<nat>)
    ensures r.Some? ==> afterSep && StartsWith(s, field + "=") && |field| + 1 < r.value < |s|
    ensures r.Some? ==> s[r.value] == sep && sep !in s[|field| + 1..r.value]
  {
    if afterSep && StartsWith(s, field + "=") then
      match FirstIndex(s[|field| + 1..], sep)
      case Some(k) => if k >= 1 then Some(|field| + 1 + k) else None
      case None => None
    else None
  }

  /**
   * `re.sub` with a literal replacement `repl`: scan left to right, replace each match and
   * resume right after it, so matches never overlap; the look-behind reads the original text.
   * A text in which the pattern does not match is left as it is.
   */
  function Sub(afterSep: bool, s: string, field: string, repl: string, sep: char): (r: string)
    ensures MatchCount(afterSep, s, field, sep) == 0 ==> r == s
    decreases |s|
  {
    if s == [] then []
    else match MatchAt(afterSep, s, field, sep)
      case Some(n) => repl + Sub(false, s[n..], field, repl, sep)
      case None =>
        assert [s[0]] + s[1..] == s;
        [s[0]] + Sub(s[0] == sep, s[1..], field, repl, sep)
  }

  /**
   * How many replacements `Sub` makes. A match takes the field, `=`, at least one character
   * of value and the separator after it, so a shorter text has none.
   */
  function MatchCount(afterSep: bool, s: string, field: string, sep: char): (n: nat)
    ensures n > 0 ==> |s| >= |field| + 3
    decreases |s|
  {
    if s == [] then 0
    else match MatchAt(afterSep, s, field, sep)
      case Some(n) => 1 + MatchCount(false, s[n..], field, sep)
      case None => MatchCount(s[0] == sep, s[1..], field, sep)
  }

  // ---------------------------------------------------------------------------------------
  // str.format

  /** `t` in front of a formatted rest; an error in the rest is an error of the whole. */
  function Prepend(t: string, o: Option<string>): Option<string>
  {
    match o
    case None => None
    case Some(x) => Some(t + x)
  }

  /**
   * `s.format(*args)` for the forms the scan can produce: `{}` takes the next positional
   * argument (IndexError once they run out), `{{` and `}}` stand for one brace, and any other
   * brace is reported as an error. Text without braces comes back unchanged.
   */
  function Format(s: string, args: seq<string>, next: nat): (r: Option<string>)
    ensures BraceFree(s) ==> r == Some(s)
    decreases |s|
  {
    if s == [] then Some([])
    else if s[0] == '{' then
      if |s| >= 2 && s[1] == '{' then Prepend("{", Format(s[2..], args, next))
      else if |s| >= 2 && s[1] == '}' then
        if next < |args| then Prepend(args[next], Format(s[2..], args, next + 1)) else None
      else None
    else if s[0] == '}' then
      if |s| >= 2 && s[1] == '}' then Prepend("}", Format(s[2..], args, next)) else None
    else
      assert [s[0]] + s[1..] == s;
      Prepend([s[0]], Format(s[1..], args, next))
  }

  // ---------------------------------------------------------------------------------------
  // filter_datum

  /** The replacement text handed to `re.sub`. */
  const Holes := "{}={}"

  /**
   * One iteration of the loop: substitute, then fill the two holes of each replacement. A
   * brace-free message in which the field does not match passes unchanged.
   */
  function Step(message: string, field: string, redaction: string, sep: char): (r: Option<string>)
    ensures BraceFree(message) && MatchCount(false, message, field, sep) == 0 ==> r == Some(message)
  {
    Format(Sub(false, message, field, Holes, sep), [field, redaction], 0)
  }

  /**
   * The loop of `filter_datum` as a left fold over the fields; `None` once a step raises. A
   * brace-free message in which no field matches passes through every step unchanged.
   */
  function Filter(fields: seq<string>, redaction: string, message: string, sep: char): (r: Option<string>)
    ensures BraceFree(message) && (forall i :: 0 <= i < |fields| ==> MatchCount(false, message, fields[i], sep) == 0)
            ==> r == Some(message)
    decreases |fields|
  {
    if fields == [] then Some(message)
    else match Step(message, fields[0], redaction, sep)
      case None => None
      case Some(m) =>
        assert forall i :: 1 <= i < |fields| ==> fields[1..][i - 1] == fields[i];
        Filter(fields[1..], redaction, m, sep)
  }

  /** `filter_datum`: the loop itself; `None` when `.format` raises. */
  method FilterDatum(fields: seq<string>, redaction: string, message: string, separator: char)
    returns (r: Option<string>)
    requires PlainSeparator(separator)
    ensures r == Filter(fields, redaction, message, separator)
  {
    var current := message;
    for i := 0 to |fields|
      invariant Filter(fields[i..], redaction, current, separator) == Filter(fields, redaction, message, separator)
    {
      assert fields[i..][1..] == fields[i + 1..];
      var substituted := Sub(false, current, fields[i], Holes, separator);
      var formatted := Format(substituted, [fields[i], redaction], 0);
      if formatted.None? {
        return None;
      }
      current := formatted.value;
    }
    return Some(current);
  }

  /** With no fields the loop never runs and the message comes back as it is. */
  lemma FilterNoFields(redaction: string, message: string, sep: char)
    ensures Filter([], redaction, message, sep) == Some(message)
  {
  }

  // ---------------------------------------------------------------------------------------
  // What `.format` does to the substituted message

  lemma {:induction false} PrependEmpty(o: Option<string>)
    ensures Prepend("", o) == o
  {
    if o.Some? {
      assert "" + o.value == o.value;
    }
  }

  /** A character other than a brace is copied, and formatting goes on after it. */
  lemma FormatPlain(s: string, args: seq<string>, next: nat)
    requires s != [] && s[0] != '{' && s[0] != '}'
    ensures Format(s, args, next) == Prepend([s[0]], Format(s[1..], args, next))
  {
  }

  /** Text without braces, in front of any rest, passes through `str.format` unchanged. */
  lemma {:induction false} FormatBraceFreeText(t: string, rest: string, args: seq<string>, next: nat)
    requires BraceFree(t)
    ensures Format(t + rest, args, next) == Prepend(t, Format(rest, args, next))
    decreases |t|
  {
    if t == [] {
      assert t + rest == rest;
      PrependEmpty(Format(rest, args, next));
    } else {
      assert (t + rest)[0] == t[0] && (t + rest)[1..] == t[1..] + rest;
      FormatPlain(t + rest, args, next);
      FormatBraceFreeText(t[1..], rest, args, next);
      PrependPrepend([t[0]], t[1..], Format(rest, args, next));
      assert [t[0]] + t[1..] == t;
    }
  }

  /** A hole takes the next argument, or raises when there is none left. */
  lemma FormatHole(rest: string, args: seq<string>, next: nat)
    ensures Format("{}" + rest, args, next) ==
            if next < |args| then Prepend(args[next], Format(rest, args, next + 1)) else None
  {
    var t := "{}" + rest;
    assert t[0] == '{' && t[1] == '}' && t[2..] == rest;
  }

  /** Putting `u` and then `t` in front is putting `t + u` in front. */
  lemma PrependPrepend(t: string, u: string, o: Option<string>)
    ensures Prepend(t, Prepend(u, o)) == Prepend(t + u, o)
  {
    if o.Some? {
      assert t + (u + o.value) == t + u + o.value;
    }
  }

  /** The two holes of one replacement take both arguments; a later replacement finds none left. */
  lemma FormatHoles(rest: string, a: string, b: string)
    ensures Format(Holes + rest, [a, b], 0) == Prepend(a + "=" + b, Format(rest, [a, b], 2))
    ensures Format(Holes + rest, [a, b], 2).None?
  {
    var args := [a, b];
    var t := "{}" + rest;
    var o := Format(rest, args, 2);
    assert Holes + rest == "{}" + ("=" + t);
    FormatHole("=" + t, args, 2);
    FormatHole("=" + t, args, 0);
    assert ("=" + t)[0] == '=' && ("=" + t)[1..] == t;
    FormatPlain("=" + t, args, 1);
    FormatHole(rest, args, 1);
    assert Format(Holes + rest, args, 0) == Prepend(a, Prepend("=", Prepend(b, o)));
    PrependPrepend("=", b, o);
    PrependPrepend(a, "=" + b, o);
    assert a + ("=" + b) == a + "=" + b;
  }

  /**
   * On a brace-free message, filling the holes of the substitution with `field` and
   * `redaction` (from argument `next` on) is substituting `field=redaction` directly as long
   * as there is at most one match; with more, `.format` runs out of arguments.
   */
  lemma {:induction false} FormatOfSub(afterSep: bool, s: string, field: string, redaction: string, sep: char, next: nat)
    requires BraceFree(s)
    requires next == 0 || next == 2
    ensures var n := MatchCount(afterSep, s, field, sep);
            var filled := Format(Sub(afterSep, s, field, Holes, sep), [field, redaction], next);
            && (n == 0 ==> filled == Some(s))
            && (n == 1 && next == 0 ==> filled == Some(Sub(afterSep, s, field, field + "=" + redaction, sep)))
            && (n >= 2 || (n >= 1 && next == 2) ==> filled.None?)
    decreases |s|
  {
    var args := [field, redaction];
    if s != [] {
      match MatchAt(afterSep, s, field, sep)
      case Some(k) =>
        var rest := s[k..];
        assert forall c :: c in rest ==> c in s;
        FormatOfSub(false, rest, field, redaction, sep, 2);
        var x := Sub(false, rest, field, Holes, sep);
        FormatHoles(x, field, redaction);
      case None =>
        assert forall c :: c in s[1..] ==> c in s;
        FormatOfSub(s[0] == sep, s[1..], field, redaction, sep, next);
        var x := Sub(s[0] == sep, s[1..], field, Holes, sep);
        FormatBraceFreeText([s[0]], x, args, next);
        assert [s[0]] + s[1..] == s;
    }
  }

  /**
   * One step on a brace-free message: with at most one match it is the plain substitution of
   * `field=redaction`; with two or more the `.format` call raises.
   */
  lemma StepIsRedaction(message: string, field: string, redaction: string, sep: char)
    requires BraceFree(message)
    ensures MatchCount(false, message, field, sep) <= 1 ==>
              Step(message, field, redaction, sep) == Some(Sub(false, message, field, field + "=" + redaction, sep))
    ensures MatchCount(false, message, field, sep) >= 2 ==> Step(message, field, redaction, sep).None?
  {
    FormatOfSub(false, message, field, redaction, sep, 0);
  }

  // ---------------------------------------------------------------------------------------
  // The substitution, segment by segment

  /** A segment the pattern rewrites when separators stand on both sides of it: `field=value`, value non-empty. */
  predicate Redactable(segment: string, field: string)
  {
    StartsWith(segment, field + "=") && |segment| > |field| + 1
  }

  /**
   * Reference definition: every segment between two separators that is `field=value` becomes
   * `repl`; the first segment (unless `afterSep`) and the last one are kept.
   */
  function RewriteSegments(afterSep: bool, segments: seq<string>, field: string, repl: string): (r: seq<string>)
    requires |segments| >= 1
    ensures |r| == |segments|
    ensures forall i :: 0 <= i < |r| ==>
      r[i] == if i < |segments| - 1 && (afterSep || i > 0) && Redactable(segments[i], field) then repl else segments[i]
    decreases |segments|
  {
    if |segments| == 1 then segments
    else [if afterSep && Redactable(segments[0], field) then repl else segments[0]]
         + RewriteSegments(true, segments[1..], field, repl)
  }

  /** The number of segments `RewriteSegments` replaces. */
  function RedactableCount(afterSep: bool, segments: seq<string>, field: string): nat
    requires |segments| >= 1
    decreases |segments|
  {
    if |segments| == 1 then 0
    else (if afterSep && Redactable(segments[0], field) then 1 else 0) + RedactableCount(true, segments[1..], field)
  }

  lemma FirstIndexAfter(a: string, c: char, b: string)
    requires c !in a
    ensures FirstIndex(a + [c] + b, c) == Some(|a|)
  {
    SplitOnceUnique(a + [c] + b, c, a, b);
  }

  /** At the start of a segment `x` followed by a separator, the pattern matches exactly when `x` is redactable. */
  lemma MatchAtSegment(afterSep: bool, x: string, y: string, field: string, sep: char)
    requires sep !in x && sep !in field && sep != '='
    ensures MatchAt(afterSep, x + [sep] + y, field, sep) ==
            if afterSep && Redactable(x, field) then Some(|x|) else None
  {
    var s := x + [sep] + y;
    var p := field + "=";
    if afterSep && StartsWith(s, p) {
      SegmentStartsWith(x, y, field, sep);
    } else {
      assert StartsWith(x, p) ==> s[..|p|] == x[..|p|];
    }
  }

  /** A segment whose line starts with `field=` starts with it itself, and the value runs to the separator. */
  lemma SegmentStartsWith(x: string, y: string, field: string, sep: char)
    requires sep !in x && sep !in field && sep != '='
    requires StartsWith(x + [sep] + y, field + "=")
    ensures StartsWith(x, field + "=")
    ensures FirstIndex((x + [sep] + y)[|field| + 1..], sep) == Some(|x| - |field| - 1)
  {
    var s := x + [sep] + y;
    var p := field + "=";
    assert sep !in p;
    assert forall i :: 0 <= i < |p| ==> s[i] == p[i];
    assert s[|x|] == sep;
    assert |p| <= |x|;
    assert x[..|p|] == s[..|p|];
    assert s[|p|..] == x[|p|..] + [sep] + y;
    assert forall c :: c in x[|p|..] ==> c in x;
    FirstIndexAfter(x[|p|..], sep, y);
  }

  /** The scan over one segment and its separator. */
  lemma SegmentStep(afterSep: bool, x: string, y: string, field: string, repl: string, sep: char)
    requires sep !in x && sep !in field && sep != '='
    ensures Sub(afterSep, x + [sep] + y, field, repl, sep) ==
            (if afterSep && Redactable(x, field) then repl else x) + [sep] + Sub(true, y, field, repl, sep)
    ensures MatchCount(afterSep, x + [sep] + y, field, sep) ==
            (if afterSep && Redactable(x, field) then 1 else 0) + MatchCount(true, y, field, sep)
  {
    SegmentSub(afterSep, x, y, field, repl, sep);
    SegmentCount(afterSep, x, y, field, sep);
  }

  /** The replacement text of one segment and its separator. */
  lemma SegmentSub(afterSep: bool, x: string, y: string, field: string, repl: string, sep: char)
    requires sep !in x && sep !in field && sep != '='
    ensures Sub(afterSep, x + [sep] + y, field, repl, sep) ==
            (if afterSep && Redactable(x, field) then repl else x) + [sep] + Sub(true, y, field, repl, sep)
  {
    if afterSep && Redactable(x, field) {
      var s := x + [sep] + y;
      MatchAtSegment(afterSep, x, y, field, sep);
      assert s[|x|..] == [sep] + y;
      SeparatorStep(y, field, repl, sep);
      assert Sub(afterSep, s, field, repl, sep) == repl + Sub(false, [sep] + y, field, repl, sep);
    } else {
      SegmentCopied(afterSep, x, y, field, repl, sep);
    }
  }

  /** A segment the pattern does not rewrite is copied, and so is the separator after it. */
  lemma {:induction false} SegmentCopied(afterSep: bool, x: string, y: string, field: string, repl: string, sep: char)
    requires sep !in x && sep !in field && sep != '='
    requires !(afterSep && Redactable(x, field))
    ensures Sub(afterSep, x + [sep] + y, field, repl, sep) == x + [sep] + Sub(true, y, field, repl, sep)
    decreases |x|
  {
    var s := x + [sep] + y;
    MatchAtSegment(afterSep, x, y, field, sep);
    if x == [] {
      assert s == [sep] + y;
      SeparatorStep(y, field, repl, sep);
    } else {
      var t := x[1..];
      assert s[0] == x[0] && s[1..] == t + [sep] + y && x[0] != sep by {
        HeadAndTail(x, sep, y);
        assert x[0] in x;
      }
      CopyStep(afterSep, s, field, repl, sep);
      SegmentCopied(false, t, y, field, repl, sep);
      HeadAndTail(x, sep, Sub(true, y, field, repl, sep));
    }
  }

  /** The first character of a segment and the rest of the line after it. */
  lemma HeadAndTail(x: string, sep: char, y: string)
    requires x != []
    ensures (x + [sep] + y)[0] == x[0] && (x + [sep] + y)[1..] == x[1..] + [sep] + y
    ensures [x[0]] + (x[1..] + [sep] + y) == x + [sep] + y
  {
    assert x == [x[0]] + x[1..];
  }

  /** Where the pattern does not match, `re.sub` copies one character and moves on. */
  lemma CopyStep(afterSep: bool, s: string, field: string, repl: string, sep: char)
    requires s != [] && MatchAt(afterSep, s, field, sep).None?
    ensures Sub(afterSep, s, field, repl, sep) == [s[0]] + Sub(s[0] == sep, s[1..], field, repl, sep)
  {
  }

  /** A separator with no separator before it starts no match and is copied. */
  lemma SeparatorStep(y: string, field: string, repl: string, sep: char)
    ensures Sub(false, [sep] + y, field, repl, sep) == [sep] + Sub(true, y, field, repl, sep)
  {
    assert ([sep] + y)[1..] == y;
  }

  /** The number of matches in one segment and its separator. */
  lemma {:induction false} SegmentCount(afterSep: bool, x: string, y: string, field: string, sep: char)
    requires sep !in x && sep !in field && sep != '='
    ensures MatchCount(afterSep, x + [sep] + y, field, sep) ==
            (if afterSep && Redactable(x, field) then 1 else 0) + MatchCount(true, y, field, sep)
    decreases |x|
  {
    var s := x + [sep] + y;
    MatchAtSegment(afterSep, x, y, field, sep);
    if afterSep && Redactable(x, field) {
      assert s[|x|..] == [] + [sep] + y;
      SegmentCount(false, [], y, field, sep);
    } else if x == [] {
      assert s[1..] == y;
    } else {
      assert s[1..] == x[1..] + [sep] + y;
      assert x[0] in x;
      assert forall c :: c in x[1..] ==> c in x;
      SegmentCount(false, x[1..], y, field, sep);
    }
  }

  /** A stretch without separator contains no match. */
  lemma {:induction false} NoSeparatorUnchanged(afterSep: bool, s: string, field: string, repl: string, sep: char)
    requires sep !in s
    ensures Sub(afterSep, s, field, repl, sep) == s
    ensures MatchCount(afterSep, s, field, sep) == 0
    decreases |s|
  {
    if s != [] {
      assert MatchAt(afterSep, s, field, sep).None?;
      assert forall c :: c in s[1..] ==> c in s;
      NoSeparatorUnchanged(s[0] == sep, s[1..], field, repl, sep);
    }
  }

  /** `re.sub` with this pattern rewrites the separated segments independently, as `RewriteSegments` says. */
  lemma {:induction false} SubBySegments(afterSep: bool, segments: seq<string>, field: string, repl: string, sep: char)
    requires |segments| >= 1
    requires forall i :: 0 <= i < |segments| ==> sep !in segments[i]
    requires sep !in field && sep != '='
    ensures Sub(afterSep, Join(segments, sep), field, repl, sep) ==
            Join(RewriteSegments(afterSep, segments, field, repl), sep)
    ensures MatchCount(afterSep, Join(segments, sep), field, sep) == RedactableCount(afterSep, segments, field)
    decreases |segments|
  {
    if |segments| == 1 {
      NoSeparatorUnchanged(afterSep, segments[0], field, repl, sep);
    } else {
      SegmentStep(afterSep, segments[0], Join(segments[1..], sep), field, repl, sep);
      SubBySegments(true, segments[1..], field, repl, sep);
      var rw := RewriteSegments(afterSep, segments, field, repl);
      assert rw[1..] == RewriteSegments(true, segments[1..], field, repl);
    }
  }

  /**
   * One step, segment by segment: on a brace-free message it raises exactly when two or more
   * segments between separators are `field=value`; otherwise each such segment becomes
   * `field=redaction` and every other segment, the first and the last included, is kept.
   */
  lemma StepBySegments(message: string, field: string, redaction: string, sep: char)
    requires BraceFree(message)
    requires sep !in field && sep != '=' && sep !in redaction
    ensures var segments := Split(message, sep);
            var r := Step(message, field, redaction, sep);
            && (r.None? <==> RedactableCount(false, segments, field) >= 2)
            && (r.Some? ==> Split(r.value, sep) == RewriteSegments(false, segments, field, field + "=" + redaction))
  {
    var segments := Split(message, sep);
    var repl := field + "=" + redaction;
    StepIsRedaction(message, field, redaction, sep);
    SubBySegments(false, segments, field, repl, sep);
    var rw := RewriteSegments(false, segments, field, repl);
    assert sep !in repl;
    SplitJoin(rw, sep);
  }

  // ---------------------------------------------------------------------------------------
  // The whole loop, segment by segment

  /** Fields, redaction and separator that keep the separated segments and the braces apart. */
  predicate FieldsFit(fields: seq<string>, redaction: string, sep: char)
  {
    && sep != '=' && sep != '{' && sep != '}'
    && sep !in redaction && BraceFree(redaction)
    && forall i :: 0 <= i < |fields| ==> sep !in fields[i] && BraceFree(fields[i])
  }

  /** The formatter's own settings fit. */
  lemma FormatterSettingsFit()
    ensures PlainSeparator(Separator)
    ensures FieldsFit(PiiFields, Redaction, Separator)
    ensures Redaction != [] && forall i :: 0 <= i < |PiiFields| ==> '=' !in PiiFields[i]
  {
    forall i | 0 <= i < |PiiFields|
      ensures Separator !in PiiFields[i] && BraceFree(PiiFields[i]) && '=' !in PiiFields[i]
    {
      var f := PiiFields[i];
      assert f == "name" || f == "email" || f == "phone" || f == "ssn" || f == "password";
    }
  }

  /** What the loop does to one segment that has separators on both sides: each field's rewrite in turn. */
  function RedactSegment(fields: seq<string>, redaction: string, segment: string): string
    decreases |fields|
  {
    if fields == [] then segment
    else RedactSegment(fields[1..], redaction, Rewrite(segment, fields[0], redaction))
  }

  /** One field's rewrite of one segment that has separators on both sides. */
  function Rewrite(segment: string, field: string, redaction: string): string
  {
    if Redactable(segment, field) then field + "=" + redaction else segment
  }

  /** Reference definition of the loop over the segment list. */
  function RedactSegments(fields: seq<string>, redaction: string, segments: seq<string>): (r: seq<string>)
    requires |segments| >= 1
    ensures |r| == |segments|
    decreases |fields|
  {
    if fields == [] then segments
    else RedactSegments(fields[1..], redaction, RewriteSegments(false, segments, fields[0], fields[0] + "=" + redaction))
  }

  /** No step meets two redactable segments (otherwise that step's `.format` raises). */
  predicate AtMostOneEach(fields: seq<string>, redaction: string, segments: seq<string>)
    requires |segments| >= 1
    decreases |fields|
  {
    fields == [] ||
    (RedactableCount(false, segments, fields[0]) <= 1 &&
     AtMostOneEach(fields[1..], redaction, RewriteSegments(false, segments, fields[0], fields[0] + "=" + redaction)))
  }

  /** The loop over the segments works on each middle segment alone and keeps the first and last. */
  lemma {:induction false} RedactSegmentsPointwise(fields: seq<string>, redaction: string, segments: seq<string>)
    requires |segments| >= 1
    ensures forall i :: 0 <= i < |segments| ==>
      RedactSegments(fields, redaction, segments)[i] ==
        if 0 < i < |segments| - 1 then RedactSegment(fields, redaction, segments[i]) else segments[i]
    decreases |fields|
  {
    if fields != [] {
      var f := fields[0];
      RedactSegmentsPointwise(fields[1..], redaction, RewriteSegments(false, segments, f, f + "=" + redaction));
    }
  }

  /** Every segment of the loop's output is a segment of the input or `field=redaction`. */
  lemma {:induction false} RedactSegmentsParts(fields: seq<string>, redaction: string, segments: seq<string>)
    requires |segments| >= 1
    ensures forall i :: 0 <= i < |segments| ==>
      var t := RedactSegments(fields, redaction, segments)[i];
      t == segments[i] || exists j :: 0 <= j < |fields| && t == fields[j] + "=" + redaction
    decreases |fields|
  {
    if fields != [] {
      var f := fields[0];
      var next := RewriteSegments(false, segments, f, f + "=" + redaction);
      RedactSegmentsParts(fields[1..], redaction, next);
      forall i | 0 <= i < |segments|
        ensures var t := RedactSegments(fields, redaction, segments)[i];
                t == segments[i] || exists j :: 0 <= j < |fields| && t == fields[j] + "=" + redaction
      {
        var t := RedactSegments(fields, redaction, segments)[i];
        if t != next[i] {
          var j :| 0 <= j < |fields[1..]| && t == fields[1..][j] + "=" + redaction;
          assert t == fields[j + 1] + "=" + redaction;
        } else if t != segments[i] {
          assert t == fields[0] + "=" + redaction;
        }
      }
    }
  }

  /**
   * The loop on a brace-free message: it raises exactly when some step meets two redactable
   * segments; otherwise its result is the segments rewritten field by field, joined again.
   */
  lemma {:induction false} FilterBySegments(fields: seq<string>, redaction: string, message: string, sep: char)
    requires BraceFree(message) && FieldsFit(fields, redaction, sep)
    ensures var segments := Split(message, sep);
            Filter(fields, redaction, message, sep) ==
              if AtMostOneEach(fields, redaction, segments)
              then Some(Join(RedactSegments(fields, redaction, segments), sep))
              else None
    decreases |fields|
  {
    var segments := Split(message, sep);
    if fields != [] {
      var f := fields[0];
      StepBySegments(message, f, redaction, sep);
      var r := Step(message, f, redaction, sep);
      if r.Some? {
        var m := r.value;
        StepKeepsBraceFree(segments, f, redaction, sep);
        assert m == Join(Split(m, sep), sep);
        FilterBySegments(fields[1..], redaction, m, sep);
      }
    }
  }

  /** Rewriting the segments of a brace-free line with brace-free fields and redaction leaves no brace. */
  lemma StepKeepsBraceFree(segments: seq<string>, f: string, redaction: string, sep: char)
    requires |segments| >= 1 && BraceFree(Join(segments, sep))
    requires BraceFree(f) && BraceFree(redaction) && sep != '{' && sep != '}'
    ensures BraceFree(Join(RewriteSegments(false, segments, f, f + "=" + redaction), sep))
  {
    var rw := RewriteSegments(false, segments, f, f + "=" + redaction);
    JoinChars(segments, sep);
    JoinChars(rw, sep);
    assert forall i :: 0 <= i < |rw| ==> BraceFree(rw[i]);
  }


  /**
   * `filter_datum` on a brace-free message: when it does not raise, its output has the same
   * separated segments except that each segment with separators on both sides is rewritten
   * field by field (`field=value` becoming `field=redaction`); the segment before the first
   * separator and the one after the last are never redacted.
   */
  lemma FilterRedactsSegments(fields: seq<string>, redaction: string, message: string, sep: char)
    requires BraceFree(message) && FieldsFit(fields, redaction, sep)
    ensures var r := Filter(fields, redaction, message, sep);
            var segments := Split(message, sep);
            r.Some? ==>
              && |Split(r.value, sep)| == |segments|
              && Split(r.value, sep)[0] == segments[0]
              && Split(r.value, sep)[|segments| - 1] == segments[|segments| - 1]
              && forall i :: 0 < i < |segments| - 1 ==>
                   Split(r.value, sep)[i] == RedactSegment(fields, redaction, segments[i])
  {
    var segments := Split(message, sep);
    FilterBySegments(fields, redaction, message, sep);
    if AtMostOneEach(fields, redaction, segments) {
      var t := RedactSegments(fields, redaction, segments);
      RedactSegmentsParts(fields, redaction, segments);
      assert forall i :: 0 <= i < |t| ==> sep !in t[i];
      SplitJoin(t, sep);
      RedactSegmentsPointwise(fields, redaction, segments);
    }
  }

  // ---------------------------------------------------------------------------------------
  // Messages with nothing to redact

  lemma {:induction false} RedactableCountZero(afterSep: bool, segments: seq<string>, field: string)
    requires |segments| >= 1
    requires forall i :: 0 <= i < |segments| - 1 && (afterSep || i > 0) ==> !Redactable(segments[i], field)
    ensures RedactableCount(afterSep, segments, field) == 0
    decreases |segments|
  {
    if |segments| > 1 {
      RedactableCountZero(true, segments[1..], field);
    }
  }

  /** Segments that no field can redact pass every step unchanged and never make a step raise. */
  lemma {:induction false} UntouchedSegments(fields: seq<string>, redaction: string, segments: seq<string>)
    requires |segments| >= 1
    requires forall i, j :: 0 < i < |segments| - 1 && 0 <= j < |fields| ==> !Redactable(segments[i], fields[j])
    ensures AtMostOneEach(fields, redaction, segments)
    ensures RedactSegments(fields, redaction, segments) == segments
    decreases |fields|
  {
    if fields != [] {
      var f := fields[0];
      assert RewriteSegments(false, segments, f, f + "=" + redaction) == segments;
      RedactableCountZero(false, segments, f);
      UntouchedSegments(fields[1..], redaction, segments);
    }
  }

  /** A message in which no field occurs as `field=value` between two separators comes back unchanged. */
  lemma FilterWithoutMatches(fields: seq<string>, redaction: string, message: string, sep: char)
    requires BraceFree(message) && FieldsFit(fields, redaction, sep)
    requires forall i, j :: 0 < i < |Split(message, sep)| - 1 && 0 <= j < |fields| ==>
               !Redactable(Split(message, sep)[i], fields[j])
    ensures Filter(fields, redaction, message, sep) == Some(message)
  {
    FilterBySegments(fields, redaction, message, sep);
    UntouchedSegments(fields, redaction, Split(message, sep));
  }

  // ---------------------------------------------------------------------------------------
  // Idempotence

  /** Field names without `=` and a non-empty replacement: a redacted `field=***` names its field unambiguously. */
  predicate Unambiguous(fields: seq<string>, redaction: string)
  {
    redaction != [] && forall j :: 0 <= j < |fields| ==> '=' !in fields[j]
  }

  /** Two `=`-free names: if `h=r` starts with `f=` then `f` and `h` are the same name. */
  lemma SameFieldName(f: string, h: string, r: string)
    requires '=' !in f && '=' !in h
    requires StartsWith(h + "=" + r, f + "=")
    ensures f == h
  {
    var s := h + "=" + r;
    var p := f + "=";
    assert s[|h|] == '=' && p[|f|] == '=';
    assert forall i :: 0 <= i < |f| ==> s[i] == p[i] && p[i] == f[i];
    assert forall i :: 0 <= i < |h| ==> s[i] == h[i];
    assert forall i :: 0 <= i < |p| && i < |h| ==> s[i] == h[i];
    assert |f| == |h|;
    assert forall i :: 0 <= i < |f| ==> f[i] == h[i];
  }

  /** A field rewrites an already-redacted `h=r` to itself. */
  lemma RewriteOfRedacted(f: string, h: string, r: string)
    requires '=' !in f && '=' !in h && r != []
    ensures Rewrite(h + "=" + r, f, r) == h + "=" + r
  {
    if Redactable(h + "=" + r, f) {
      SameFieldName(f, h, r);
    }
  }

  lemma RedactedIsRedactable(f: string, r: string)
    requires r != []
    ensures Redactable(f + "=" + r, f)
  {
    assert (f + "=" + r)[..|f| + 1] == f + "=";
  }

  /** What one field leaves alone stays alone after another field's rewrite. */
  lemma FixedStaysFixed(x: string, f: string, h: string, r: string)
    requires '=' !in f && '=' !in h && r != []
    requires Rewrite(x, f, r) == x
    ensures Rewrite(Rewrite(x, h, r), f, r) == Rewrite(x, h, r)
  {
    if Redactable(x, h) {
      RewriteOfRedacted(f, h, r);
    }
  }

  lemma {:induction false} FoldKeepsFixed(fields: seq<string>, f: string, x: string, r: string)
    requires Unambiguous(fields, r) && '=' !in f
    requires Rewrite(x, f, r) == x
    ensures Rewrite(RedactSegment(fields, r, x), f, r) == RedactSegment(fields, r, x)
    decreases |fields|
  {
    if fields != [] {
      FixedStaysFixed(x, f, fields[0], r);
      FoldKeepsFixed(fields[1..], f, Rewrite(x, fields[0], r), r);
    }
  }

  /** After the loop, no field changes the segment any more. */
  lemma {:induction false} FoldFixedByAll(fields: seq<string>, r: string, x: string)
    requires Unambiguous(fields, r)
    ensures forall j :: 0 <= j < |fields| ==>
      Rewrite(RedactSegment(fields, r, x), fields[j], r) == RedactSegment(fields, r, x)
    decreases |fields|
  {
    if fields != [] {
      var f := fields[0];
      var x1 := Rewrite(x, f, r);
      if Redactable(x, f) {
        RewriteOfRedacted(f, f, r);
      }
      assert Rewrite(x1, f, r) == x1;
      FoldKeepsFixed(fields[1..], f, x1, r);
      FoldFixedByAll(fields[1..], r, x1);
      assert forall j :: 1 <= j < |fields| ==> fields[j] == fields[1..][j - 1];
    }
  }

  lemma {:induction false} FoldOfFixed(fields: seq<string>, r: string, t: string)
    requires forall j :: 0 <= j < |fields| ==> Rewrite(t, fields[j], r) == t
    ensures RedactSegment(fields, r, t) == t
    decreases |fields|
  {
    if fields != [] {
      FoldOfFixed(fields[1..], r, t);
    }
  }

  /** A segment `f=value` between two separators, with `f` among the fields, becomes `f=redaction`. */
  lemma {:induction false} RedactsListedField(fields: seq<string>, r: string, x: string, f: string)
    requires Unambiguous(fields, r) && f in fields && Redactable(x, f)
    ensures RedactSegment(fields, r, x) == f + "=" + r
    decreases |fields|
  {
    var g := fields[0];
    var k :| 0 <= k < |fields| && fields[k] == f;
    assert '=' !in f && '=' !in g;
    if g == f {
      var x1 := f + "=" + r;
      forall j | 0 <= j < |fields[1..]|
        ensures Rewrite(x1, fields[1..][j], r) == x1
      {
        assert fields[1..][j] == fields[j + 1];
        RewriteOfRedacted(fields[1..][j], f, r);
      }
      FoldOfFixed(fields[1..], r, x1);
    } else {
      if Redactable(x, g) {
        var v := x[|f| + 1..];
        assert x == f + "=" + v;
        SameFieldName(g, f, v);
        assert false;
      }
      assert f in fields[1..] by { assert fields[1..][k - 1] == f; }
      assert forall j :: 0 <= j < |fields[1..]| ==> fields[1..][j] == fields[j + 1];
      RedactsListedField(fields[1..], r, x, f);
    }
  }

  /** A segment that no field can rewrite is kept as it is. */
  lemma KeepsUnlistedSegment(fields: seq<string>, r: string, x: string)
    requires forall j :: 0 <= j < |fields| ==> !Redactable(x, fields[j])
    ensures RedactSegment(fields, r, x) == x
  {
    FoldOfFixed(fields, r, x);
  }

  /** Redacting a redacted segment changes nothing. */
  lemma RedactSegmentIdempotent(fields: seq<string>, r: string, x: string)
    requires Unambiguous(fields, r)
    ensures RedactSegment(fields, r, RedactSegment(fields, r, x)) == RedactSegment(fields, r, x)
  {
    FoldFixedByAll(fields, r, x);
    FoldOfFixed(fields, r, RedactSegment(fields, r, x));
  }

  /** For a name `h` not in the list, the loop yields `h=r` exactly from `h=r`. */
  lemma {:induction false} RedactSegmentHits(fields: seq<string>, r: string, h: string, x: string)
    requires Unambiguous(fields, r) && '=' !in h
    requires forall j :: 0 <= j < |fields| ==> fields[j] != h
    ensures RedactSegment(fields, r, x) == h + "=" + r <==> x == h + "=" + r
    decreases |fields|
  {
    if fields != [] {
      var f := fields[0];
      if Redactable(x, f) {
        if f + "=" + r == h + "=" + r {
          RedactedIsRedactable(h, r);
          SameFieldName(f, h, r);
        }
        if x == h + "=" + r {
          SameFieldName(f, h, r);
        }
      }
      RedactSegmentHits(fields[1..], r, h, Rewrite(x, f, r));
    }
  }

  lemma {:induction false} RedactableCountCongruent(afterSep: bool, a: seq<string>, b: seq<string>, field: string)
    requires |a| == |b| >= 1
    requires forall i :: 0 <= i < |a| - 1 && (afterSep || i > 0) ==>
               (Redactable(a[i], field) <==> Redactable(b[i], field))
    ensures RedactableCount(afterSep, a, field) == RedactableCount(afterSep, b, field)
    decreases |a|
  {
    if |a| > 1 {
      RedactableCountCongruent(true, a[1..], b[1..], field);
    }
  }

  /** After a loop that did not raise, every field names at most one segment of the output. */
  lemma {:induction false} RedactedCountBound(fields: seq<string>, r: string, segments: seq<string>)
    requires |segments| >= 1
    requires Unambiguous(fields, r) && AtMostOneEach(fields, r, segments)
    ensures forall j :: 0 <= j < |fields| ==>
      RedactableCount(false, RedactSegments(fields, r, segments), fields[j]) <= 1
    decreases |fields|
  {
    if fields != [] {
      var f := fields[0];
      var rest := fields[1..];
      var x1 := RewriteSegments(false, segments, f, f + "=" + r);
      var t := RedactSegments(fields, r, segments);
      assert t == RedactSegments(rest, r, x1);
      RedactedCountBound(rest, r, x1);
      assert forall j :: 1 <= j < |fields| ==> fields[j] == rest[j - 1];
      if forall k :: 0 <= k < |rest| ==> rest[k] != f {
        RedactSegmentsPointwise(rest, r, x1);
        RedactedIsRedactable(f, r);
        forall i | 0 < i < |segments| - 1
          ensures Redactable(t[i], f) <==> Redactable(segments[i], f)
        {
          assert x1[i] == Rewrite(segments[i], f, r);
          assert t[i] == RedactSegment(fields, r, segments[i]);
          FoldFixedByAll(fields, r, segments[i]);
          RedactSegmentHits(rest, r, f, x1[i]);
        }
        RedactableCountCongruent(false, t, segments, f);
      }
    }
  }

  /** Segments every field leaves alone, with no field naming two of them, pass the loop unchanged. */
  lemma {:induction false} FixedSegmentsStable(fields: seq<string>, r: string, t: seq<string>)
    requires |t| >= 1
    requires forall i, j :: 0 < i < |t| - 1 && 0 <= j < |fields| ==> Rewrite(t[i], fields[j], r) == t[i]
    requires forall j :: 0 <= j < |fields| ==> RedactableCount(false, t, fields[j]) <= 1
    ensures AtMostOneEach(fields, r, t) && RedactSegments(fields, r, t) == t
    decreases |fields|
  {
    if fields != [] {
      var f := fields[0];
      assert forall i :: 0 < i < |t| - 1 ==> Rewrite(t[i], f, r) == t[i];
      assert RewriteSegments(false, t, f, f + "=" + r) == t;
      assert forall j :: 1 <= j < |fields| ==> fields[j] == fields[1..][j - 1];
      FixedSegmentsStable(fields[1..], r, t);
    }
  }

  /** Filtering a line that `filter_datum` already filtered gives the same line again. */
  lemma FilterIdempotent(fields: seq<string>, redaction: string, message: string, sep: char)
    requires BraceFree(message) && FieldsFit(fields, redaction, sep) && Unambiguous(fields, redaction)
    ensures var r := Filter(fields, redaction, message, sep);
            r.Some? ==> Filter(fields, redaction, r.value, sep) == r
  {
    var segments := Split(message, sep);
    FilterBySegments(fields, redaction, message, sep);
    if AtMostOneEach(fields, redaction, segments) {
      var t := RedactSegments(fields, redaction, segments);
      RedactedSegmentsFit(fields, redaction, message, sep);
      FilterBySegments(fields, redaction, Join(t, sep), sep);
      RedactedSegmentsFixed(fields, redaction, segments);
    }
  }

  /** The redacted segments hold no separator and no brace, so they are the segments of their join. */
  lemma RedactedSegmentsFit(fields: seq<string>, redaction: string, message: string, sep: char)
    requires BraceFree(message) && FieldsFit(fields, redaction, sep)
    ensures var t := RedactSegments(fields, redaction, Split(message, sep));
            BraceFree(Join(t, sep)) && Split(Join(t, sep), sep) == t
  {
    var segments := Split(message, sep);
    var t := RedactSegments(fields, redaction, segments);
    RedactSegmentsParts(fields, redaction, segments);
    JoinChars(segments, sep);
    JoinChars(t, sep);
    assert forall i :: 0 <= i < |t| ==> sep !in t[i] && BraceFree(t[i]);
    SplitJoin(t, sep);
  }

  /** Redacting the redacted segments again meets at most one redactable segment per field and changes nothing. */
  lemma RedactedSegmentsFixed(fields: seq<string>, redaction: string, segments: seq<string>)
    requires |segments| >= 1
    requires Unambiguous(fields, redaction) && AtMostOneEach(fields, redaction, segments)
    ensures var t := RedactSegments(fields, redaction, segments);
            AtMostOneEach(fields, redaction, t) && RedactSegments(fields, redaction, t) == t
  {
    var t := RedactSegments(fields, redaction, segments);
    RedactedCountBound(fields, redaction, segments);
    RedactSegmentsPointwise(fields, redaction, segments);
    forall i, j | 0 < i < |t| - 1 && 0 <= j < |fields|
      ensures Rewrite(t[i], fields[j], redaction) == t[i]
    {
      FoldFixedByAll(fields, redaction, segments[i]);
    }
    FixedSegmentsStable(fields, redaction, t);
  }

}
