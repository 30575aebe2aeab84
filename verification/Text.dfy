/** Text the way Rust holds it: a string is its UTF-8 bytes, one `char` per byte.
    The splitting, searching and case operations the core is written in. */
module Text {

  datatype Option<+T> = None | Some(value: T)

  datatype Result<+T, +E> = Ok(value: T) | Err(error: E)

  /** Position of the first `c` in `s`, or |s| when there is none. */
  function IndexOf(s: string, c: char): (i: nat)
    ensures i <= |s|
    ensures i < |s| ==> s[i] == c
    ensures forall k :: 0 <= k < i ==> s[k] != c
  {
    if s == [] || s[0] == c then 0 else 1 + IndexOf(s[1..], c)
  }

  lemma IndexOfAt(s: string, c: char, i: nat)
    requires i < |s| && s[i] == c
    requires forall k :: 0 <= k < i ==> s[k] != c
    ensures IndexOf(s, c) == i
  {
    if i > 0 {
      IndexOfAt(s[1..], c, i - 1);
    }
  }

  lemma IndexOfNone(s: string, c: char)
    requires c !in s
    ensures IndexOf(s, c) == |s|
  {
  }

  /** `str::split` on one character. */
  function Split(s: string, c: char): (parts: seq<string>)
    ensures |parts| >= 1
    decreases |s|
  {
    var i := IndexOf(s, c);
    if i == |s| then [s] else [s[..i]] + Split(s[i + 1..], c)
  }

  lemma SplitStep(s: string, c: char, i: nat)
    requires i == IndexOf(s, c)
    ensures i == |s| ==> Split(s, c) == [s]
    ensures i < |s| ==> Split(s, c) == [s[..i]] + Split(s[i + 1..], c)
  {
  }

  function Join(parts: seq<string>, c: char): string {
    if |parts| == 0 then []
    else if |parts| == 1 then parts[0]
    else parts[0] + [c] + Join(parts[1..], c)
  }

  predicate Lacks(parts: seq<string>, c: char) {
    forall k :: 0 <= k < |parts| ==> c !in parts[k]
  }

  lemma {:induction false} SplitLacks(s: string, c: char)
    ensures Lacks(Split(s, c), c)
    decreases |s|
  {
    var i := IndexOf(s, c);
    if i < |s| {
      SplitLacks(s[i + 1..], c);
    }
  }

  lemma JoinCons(x: string, rest: seq<string>, c: char)
    requires |rest| >= 1
    ensures Join([x] + rest, c) == x + [c] + Join(rest, c)
  {
    assert ([x] + rest)[1..] == rest;
  }

  lemma {:induction false} JoinSplit(s: string, c: char)
    ensures Join(Split(s, c), c) == s
    decreases |s|
  {
    var i := IndexOf(s, c);
    if i < |s| {
      var a, b := s[..i], s[i + 1..];
      JoinSplit(b, c);
      JoinCons(a, Split(b, c), c);
      Cut(s, i);
    }
  }

  lemma Cut(s: string, i: nat)
    requires i < |s|
    ensures s == s[..i] + [s[i]] + s[i + 1..]
  {
  }

  /** Splitting distributes over a separator. */
  lemma {:induction false} SplitConcat(a: string, c: char, b: string)
    ensures Split(a + [c] + b, c) == Split(a, c) + Split(b, c)
    decreases |a|
  {
    var i := IndexOf(a, c);
    var s := a + [c] + b;
    if i == |a| {
      IndexOfAt(s, c, i);
      assert s[..i] == a && s[i + 1..] == b;
    } else {
      IndexOfAt(s, c, i);
      assert s[..i] == a[..i];
      assert s[i + 1..] == a[i + 1..] + [c] + b;
      SplitConcat(a[i + 1..], c, b);
      assert [a[..i]] + (Split(a[i + 1..], c) + Split(b, c)) == ([a[..i]] + Split(a[i + 1..], c)) + Split(b, c);
    }
  }

  lemma SplitNone(s: string, c: char)
    requires c !in s
    ensures Split(s, c) == [s]
  {
    IndexOfNone(s, c);
  }

  lemma {:induction false} SplitJoin(parts: seq<string>, c: char)
    requires |parts| >= 1 && Lacks(parts, c)
    ensures Split(Join(parts, c), c) == parts
  {
    SplitNone(parts[0], c);
    if |parts| > 1 {
      SplitConcat(parts[0], c, Join(parts[1..], c));
      SplitJoin(parts[1..], c);
      assert parts == [parts[0]] + parts[1..];
    }
  }

  lemma {:induction false} JoinConcat(xs: seq<string>, c: char, ys: seq<string>)
    requires |xs| >= 1 && |ys| >= 1
    ensures Join(xs + ys, c) == Join(xs, c) + [c] + Join(ys, c)
  {
    if |xs| == 1 {
      assert (xs + ys)[1..] == ys;
    } else {
      JoinConcat(xs[1..], c, ys);
      assert (xs + ys)[1..] == xs[1..] + ys;
    }
  }

  /** One part in the middle: the text around it is `Before(..k) + part + After`. */
  function Before(parts: seq<string>, c: char): string {
    if |parts| == 0 then [] else parts[0] + [c] + Before(parts[1..], c)
  }

  function After(parts: seq<string>, c: char): string {
    if |parts| == 0 then [] else [c] + Join(parts, c)
  }

  lemma {:induction false} JoinAround(parts: seq<string>, c: char, k: nat, x: string)
    requires k < |parts|
    ensures Join(parts[k := x], c) == Before(parts[..k], c) + x + After(parts[k + 1..], c)
  {
    hide Join, Before, After;
    var rest := parts[1..];
    if k == 0 {
      assert parts[k := x] == [x] + rest;
      JoinHead(x, rest, c);
    } else {
      var ps, init := rest[k - 1 := x], rest[..k - 1];
      var b, a := Before(init, c), After(rest[k..], c);
      JoinAround(rest, c, k - 1, x);
      JoinCons(parts[0], ps, c);
      assert parts[k := x] == [parts[0]] + ps;
      BeforeCons(parts[0], init, c);
      assert parts[..k] == [parts[0]] + init;
      assert rest[k..] == parts[k + 1..];
      assert parts[0] + [c] + (b + x + a) == (parts[0] + [c] + b) + x + a;
    }
  }

  lemma JoinHead(x: string, rest: seq<string>, c: char)
    ensures Join([x] + rest, c) == Before([], c) + x + After(rest, c)
  {
    if rest != [] {
      JoinCons(x, rest, c);
    }
  }

  lemma BeforeCons(x: string, rest: seq<string>, c: char)
    ensures Before([x] + rest, c) == x + [c] + Before(rest, c)
  {
    assert ([x] + rest)[1..] == rest;
  }

  lemma {:induction false} BeforeSnoc(parts: seq<string>, c: char, x: string)
    ensures Before(parts + [x], c) == Before(parts, c) + x + [c]
  {
    if |parts| > 0 {
      BeforeSnoc(parts[1..], c, x);
      assert (parts + [x])[1..] == parts[1..] + [x];
    }
  }

  lemma {:induction false} BeforeIsJoin(parts: seq<string>, c: char)
    ensures Before(parts, c) == Join(parts + [""], c)
  {
    if |parts| > 0 {
      BeforeIsJoin(parts[1..], c);
      assert (parts + [""])[1..] == parts[1..] + [""];
    }
  }

  /** First part from `k` on that satisfies `p`, or |ls|. */
  function First(ls: seq<string>, k: nat, p: string -> bool): (r: nat)
    requires k <= |ls|
    ensures k <= r <= |ls|
    ensures r < |ls| ==> p(ls[r])
    ensures forall i :: k <= i < r ==> !p(ls[i])
    decreases |ls| - k
  {
    if k == |ls| || p(ls[k]) then k else First(ls, k + 1, p)
  }

  lemma FirstIs(ls: seq<string>, k: nat, p: string -> bool, r: nat)
    requires k <= r < |ls| && p(ls[r]) && forall i :: k <= i < r ==> !p(ls[i])
    ensures First(ls, k, p) == r
  {
  }

  /** `str::ends_with`. */
  predicate HasSuffix(s: string, suffix: string) {
    |suffix| <= |s| && s[|s| - |suffix|..] == suffix
  }

  /** `str::strip_prefix`. */
  function StripPrefix(s: string, prefix: string): Option<string> {
    if prefix <= s then Some(s[|prefix|..]) else None
  }

  /** `str::split_once` on one character. */
  function SplitOnce(s: string, c: char): Option<(string, string)> {
    var i := IndexOf(s, c);
    if i == |s| then None else Some((s[..i], s[i + 1..]))
  }

  lemma SplitOnceAt(a: string, c: char, b: string)
    requires c !in a
    ensures SplitOnce(a + [c] + b, c) == Some((a, b))
  {
    var s := a + [c] + b;
    IndexOfAt(s, c, |a|);
    assert s[..|a|] == a && s[|a| + 1..] == b;
  }

  function StripCr(line: string): string {
    if line != "" && line[|line| - 1] == '\r' then line[..|line| - 1] else line
  }

  /** `str::lines`: no phantom line at the end, and a `\r` goes with its `\n`. */
  function StrLines(text: string): seq<string> {
    LinesFrom(Split(text, '\n'))
  }

  function LinesFrom(ls: seq<string>): seq<string> {
    if ls == [] then []
    else if |ls| == 1 then (if ls[0] == "" then [] else ls)
    else [StripCr(ls[0])] + LinesFrom(ls[1..])
  }

  function Stripped(ls: seq<string>): seq<string> {
    if ls == [] then [] else [StripCr(ls[0])] + Stripped(ls[1..])
  }

  /** Lines written each with its newline read back, less a `\r` at their ends. */
  lemma {:induction false} StrLinesWritten(ls: seq<string>)
    requires Lacks(ls, '\n')
    ensures StrLines(Before(ls, '\n')) == Stripped(ls)
  {
    BeforeIsJoin(ls, '\n');
    SplitJoin(ls + [""], '\n');
    LinesFromWritten(ls);
  }

  lemma {:induction false} LinesFromWritten(ls: seq<string>)
    ensures LinesFrom(ls + [""]) == Stripped(ls)
  {
    if ls != [] {
      LinesFromWritten(ls[1..]);
      assert (ls + [""])[1..] == ls[1..] + [""];
    }
  }

  function ToLower(c: char): char {
    if 'A' <= c <= 'Z' then c + ' ' else c
  }

  function ToUpper(c: char): char {
    if 'a' <= c <= 'z' then c - ' ' else c
  }

  /** `to_ascii_lowercase`. */
  function Lower(s: string): (r: string)
    ensures |r| == |s|
    ensures forall k :: 0 <= k < |s| ==> r[k] == ToLower(s[k])
  {
    seq(|s|, k requires 0 <= k < |s| => ToLower(s[k]))
  }

  /** `to_ascii_uppercase`. */
  function Upper(s: string): (r: string)
    ensures |r| == |s|
    ensures forall k :: 0 <= k < |s| ==> r[k] == ToUpper(s[k])
  {
    seq(|s|, k requires 0 <= k < |s| => ToUpper(s[k]))
  }

  /** A last line without its newline is a line like any other, a `\r` at its end kept. */
  lemma {:induction false} StrLinesOpen(ls: seq<string>, last: string)
    requires Lacks(ls, '\n') && '\n' !in last && last != ""
    ensures StrLines(Before(ls, '\n') + last) == Stripped(ls) + [last]
  {
    JoinSnoc(ls, last, '\n');
    SplitJoin(ls + [last], '\n');
    LinesFromOpen(ls, last);
  }

  lemma {:induction false} JoinSnoc(ls: seq<string>, last: string, c: char)
    ensures Join(ls + [last], c) == Before(ls, c) + last
  {
    if ls != [] {
      JoinSnoc(ls[1..], last, c);
      JoinCons(ls[0], ls[1..] + [last], c);
      assert ls + [last] == [ls[0]] + (ls[1..] + [last]);
    }
  }

  lemma {:induction false} LinesFromOpen(ls: seq<string>, last: string)
    requires last != ""
    ensures LinesFrom(ls + [last]) == Stripped(ls) + [last]
  {
    if ls != [] {
      LinesFromOpen(ls[1..], last);
      assert (ls + [last])[1..] == ls[1..] + [last];
    }
  }

  /** The letters of the Latin alphabet change case, and nothing else does. */
  lemma CaseTable(i: nat, c: char)
    requires i < 26
    ensures ToLower('A' + i as char) == 'a' + i as char && ToUpper('a' + i as char) == 'A' + i as char
    ensures !('A' <= c <= 'Z') ==> ToLower(c) == c
    ensures !('a' <= c <= 'z') ==> ToUpper(c) == c
  {
  }

  lemma StripCrIs(s: string)
    ensures StripCr(s + "\r") == s && (s == "" || s[|s| - 1] != '\r' ==> StripCr(s) == s)
  {
  }
}
