/** The parts of Java's semantics the flink-geo code leans on: `null` as an
    Option, exceptions as the abrupt completion of a Result, string
    concatenation of a possibly-null exception message, and the three
    `java.lang` string helpers the code calls (`String.contains`,
    `String.trim`, `Boolean.parseBoolean`). */
module Java {

  /** A reference that may be `null`. */
  datatype Option<+T> = None | Some(value: T)

  /** The exception classes the modelled code throws, catches or lets escape. */
  datatype ExceptionKind =
    | GeometryParseException
    | IllegalArgumentException
    | NullPointerException
    | NumberFormatException
    | RuntimeException
    | LibraryException  // any other exception raised inside a foreign library

  /** A thrown exception: its class and its `getMessage()`, which may be null. */
  datatype Exception = Exception(kind: ExceptionKind, message: Option<string>)

  /** Normal completion with a value, or abrupt completion with an exception. */
  datatype Result<+T> = Ok(value: T) | Err(error: Exception) {

    predicate IsFailure() {
      Err?
    }

    function PropagateFailure<U>(): Result<U>
      requires Err?
    {
      Err(error)
    }

    function Extract(): T
      requires Ok?
    {
      value
    }
  }

  /** `throw new K(message)` with a non-null message. */
  function Throw<T>(kind: ExceptionKind, message: string): Result<T>
  {
    Err(Exception(kind, Some(message)))
  }

  /** How `String.valueOf` renders a possibly-null message inside `+`. */
  function Render(message: Option<string>): string
  {
    match message
    case Some(m) => m
    case None => "null"
  }

  /** `prefix + e.getMessage()`. */
  function Concat(prefix: string, message: Option<string>): (r: string)
    ensures |r| >= |prefix| && r[..|prefix|] == prefix
    ensures message.Some? ==> r == prefix + message.value
    ensures message.None? ==> r[|prefix|..] == "null"
  {
    prefix + Render(message)
  }

  /** `sub` occurs in `s` starting at index `i`. */
  predicate OccursAt(s: string, sub: string, i: int)
  {
    0 <= i <= |s| - |sub| && s[i..i + |sub|] == sub
  }

  /** `s.contains(sub)`, by scanning `s` from the left. */
  function ContainsSubstring(s: string, sub: string): (r: bool)
    ensures r <==> exists i :: OccursAt(s, sub, i)
    decreases |s|
  {
    if |s| < |sub| then
      false
    else if sub <= s then
      assert OccursAt(s, sub, 0);
      true
    else
      var rest := ContainsSubstring(s[1..], sub);
      OccursShift(s, sub);
      rest
  }

  /** An occurrence in `s[1..]` is an occurrence in `s` one place later, and
      when `s` does not start with `sub` every occurrence is of that kind. */
  lemma OccursShift(s: string, sub: string)
    requires |s| >= |sub| && !(sub <= s)
    ensures (exists j :: OccursAt(s[1..], sub, j)) <==> (exists i :: OccursAt(s, sub, i))
  {
    if exists j :: OccursAt(s[1..], sub, j) {
      var j :| OccursAt(s[1..], sub, j);
      assert s[j + 1..j + 1 + |sub|] == s[1..][j..j + |sub|];
      assert OccursAt(s, sub, j + 1);
    }
    if exists i :: OccursAt(s, sub, i) {
      var i :| OccursAt(s, sub, i);
      assert i != 0 by {
        if i == 0 {
          assert false;
        }
      }
      assert s[1..][i - 1..i - 1 + |sub|] == s[i..i + |sub|];
      assert OccursAt(s[1..], sub, i - 1);
    }
  }

  /** `s.endsWith(suffix)`. */
  predicate EndsWith(s: string, suffix: string)
  {
    |suffix| <= |s| && s[|s| - |suffix|..] == suffix
  }

  /** The characters `String.trim` strips: every code point up to U+0020. */
  predicate IsTrimmable(c: char)
  {
    c <= ' '
  }

  /** Every character of `s` is one that `trim` strips. */
  predicate IsBlank(s: string)
  {
    forall i :: 0 <= i < |s| ==> IsTrimmable(s[i])
  }

  function StripLeading(s: string): string
  {
    if |s| > 0 && IsTrimmable(s[0]) then StripLeading(s[1..]) else s
  }

  function StripTrailing(s: string): string
  {
    if |s| > 0 && IsTrimmable(s[|s| - 1]) then StripTrailing(s[..|s| - 1]) else s
  }

  /** `s.trim()`. */
  function Trim(s: string): string
  {
    StripTrailing(StripLeading(s))
  }

  /** `s.trim().isEmpty()` holds exactly for blank strings. */
  lemma {:induction false} TrimEmptyIffBlank(s: string)
    ensures Trim(s) == [] <==> IsBlank(s)
  {
    StripLeadingEmptyIffBlank(s);
    var t := StripLeading(s);
    if t != [] {
      StripLeadingStartsVisible(s);
      StripTrailingKeepsVisibleHead(t);
    }
  }

  lemma {:induction false} StripLeadingEmptyIffBlank(s: string)
    ensures StripLeading(s) == [] <==> IsBlank(s)
    decreases |s|
  {
    if |s| > 0 && IsTrimmable(s[0]) {
      StripLeadingEmptyIffBlank(s[1..]);
      assert IsBlank(s) <==> IsBlank(s[1..]) by {
        if IsBlank(s[1..]) {
          forall i | 0 <= i < |s| ensures IsTrimmable(s[i]) {
            if i > 0 {
              assert s[i] == s[1..][i - 1];
            }
          }
        }
      }
    } else if |s| > 0 {
      assert !IsTrimmable(s[0]);
    }
  }

  lemma {:induction false} StripLeadingStartsVisible(s: string)
    requires StripLeading(s) != []
    ensures !IsTrimmable(StripLeading(s)[0])
    decreases |s|
  {
    if |s| > 0 && IsTrimmable(s[0]) {
      StripLeadingStartsVisible(s[1..]);
    }
  }

  lemma {:induction false} StripTrailingKeepsVisibleHead(t: string)
    requires |t| > 0 && !IsTrimmable(t[0])
    ensures StripTrailing(t) != []
    decreases |t|
  {
    if IsTrimmable(t[|t| - 1]) {
      assert |t| > 1;
      StripTrailingKeepsVisibleHead(t[..|t| - 1]);
    }
  }

  /** Lower-cases the ASCII letters and leaves every other character alone. */
  function ToLowerAscii(c: char): char
  {
    if 'A' <= c <= 'Z' then (c as int + 32) as char else c
  }

  /** `a.equalsIgnoreCase(b)`, restricted to ASCII case folding. Java folds
      more characters, but none of them folds to a letter of "true", so the
      two agree whenever one side is "true", the only use here. */
  predicate EqualsIgnoreCase(a: string, b: string)
  {
    |a| == |b| && forall i :: 0 <= i < |a| ==> ToLowerAscii(a[i]) == ToLowerAscii(b[i])
  }

  /** `Boolean.parseBoolean(s)`: true exactly for "true" in any mix of case. */
  function ParseBoolean(s: string): (r: bool)
    ensures r <==> |s| == 4 && forall i :: 0 <= i < 4 ==> s[i] == "true"[i] || s[i] == "TRUE"[i]
  {
    EqualsIgnoreCase("true", s)
  }
}
