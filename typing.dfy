/** The heading's typing effect rests on `String.prototype.trim`: what is
    typed out is the heading's text without leading and trailing white
    space. */
module Typing {

  /** ECMAScript's WhiteSpace and LineTerminator characters: tab, vertical
      tab, form feed, the byte order mark, line feed, carriage return, the
      line and paragraph separators, and the space separators (Zs). */
  predicate IsJsSpace(c: char) {
    var u := c as int;
    u == 0x0009 || u == 0x000B || u == 0x000C || u == 0xFEFF ||
    u == 0x000A || u == 0x000D || u == 0x2028 || u == 0x2029 ||
    u == 0x0020 || u == 0x00A0 || u == 0x1680 || (0x2000 <= u <= 0x200A) ||
    u == 0x202F || u == 0x205F || u == 0x3000
  }

  /** How many white-space characters open `s`. */
  function LeadingSpace(s: string): (i: nat)
    ensures i <= |s|
    ensures forall k :: 0 <= k < i ==> IsJsSpace(s[k])
    ensures i < |s| ==> !IsJsSpace(s[i])
  {
    if s == [] || !IsJsSpace(s[0]) then 0
    else
      var i := 1 + LeadingSpace(s[1..]);
      assert forall k :: 1 <= k < i ==> s[k] == s[1..][k - 1];
      i
  }

  /** Where the trailing white space of `s` starts. */
  function TrailingSpace(s: string): (j: nat)
    ensures j <= |s|
    ensures forall k :: j <= k < |s| ==> IsJsSpace(s[k])
    ensures j > 0 ==> !IsJsSpace(s[j - 1])
  {
    if s == [] || !IsJsSpace(s[|s| - 1]) then |s|
    else TrailingSpace(s[..|s| - 1])
  }

  /** `s.trim()`: the slice of `s` between its leading and its trailing
      white space; nothing is left of an all-white-space string. */
  function Trim(s: string): (t: string)
    ensures t == [] || (!IsJsSpace(t[0]) && !IsJsSpace(t[|t| - 1]))
    ensures t == [] <==> forall k :: 0 <= k < |s| ==> IsJsSpace(s[k])
    ensures t != [] ==>
      LeadingSpace(s) < TrailingSpace(s) && t == s[LeadingSpace(s)..TrailingSpace(s)]
  {
    var i, j := LeadingSpace(s), TrailingSpace(s);
    if i == |s| then []
    else
      assert !IsJsSpace(s[i]);
      s[i..j]
  }

  /** Trimming is idempotent: a trimmed text has nothing left to trim. */
  lemma TrimIdempotent(s: string)
    ensures Trim(Trim(s)) == Trim(s)
  {
    var t := Trim(s);
    if t != [] {
      assert LeadingSpace(t) == 0;
      assert TrailingSpace(t) == |t|;
      assert t[0..|t|] == t;
    }
  }
}
