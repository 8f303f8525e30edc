/**
 * get_literal_key: the key of a #{key: value} literal, scanned from the
 * text at the cursor.  The text is a string without its terminating NUL;
 * its end stops every scan as the NUL does.
 */
module LiteralKey {
  import opened DictCore

  /** A character of a literal key: an ASCII letter or digit, '_' or '-'. */
  predicate KeyChar(c: char)
  {
    ('a' <= c <= 'z') || ('A' <= c <= 'Z') || ('0' <= c <= '9') || c == '_' || c == '-'
  }

  /** What skipwhite skips: a space or a tab. */
  predicate White(c: char)
  {
    c == ' ' || c == '\t'
  }

  /** The length of the longest prefix of s whose characters all satisfy inRun. */
  function LeadingRun(s: string, inRun: char -> bool): (n: nat)
    ensures n <= |s|
    ensures forall i :: 0 <= i < n ==> inRun(s[i])
    ensures n == |s| || !inRun(s[n])
  {
    if s == [] || !inRun(s[0]) then 0 else 1 + LeadingRun(s[1..], inRun)
  }

  /** Only one length has the properties of LeadingRun: the scan's result is determined. */
  lemma RunUnique(s: string, inRun: char -> bool, n: nat)
    requires n <= |s| && (forall i :: 0 <= i < n ==> inRun(s[i])) && (n == |s| || !inRun(s[n]))
    ensures n == LeadingRun(s, inRun)
  {
  }

  /** A scanned key: the key string (NULL when its copy cannot be allocated), its length, and where the cursor moves. */
  datatype Scanned = Scanned(key: Option<string>, len: nat, next: nat)

  /**
   * get_literal_key: FAIL unless the text starts with a key character;
   * otherwise the longest run of key characters is the key, and the
   * cursor moves past it and past the spaces and tabs after it.
   */
  method GetLiteralKey(arg: string, oom: bool) returns (r: Option<Scanned>)
    ensures r.None? <==> arg == [] || !KeyChar(arg[0])
    ensures r.Some? ==> r.value.len == LeadingRun(arg, KeyChar) > 0
    ensures r.Some? ==> r.value.next == r.value.len + LeadingRun(arg[r.value.len..], White)
    ensures r.Some? ==> r.value.key == if oom then None else Some(arg[..r.value.len])
  {
    if arg == [] || !KeyChar(arg[0]) {
      return None;
    }
    var p := 0;
    while p < |arg| && KeyChar(arg[p])
      invariant 0 <= p <= |arg|
      invariant forall i :: 0 <= i < p ==> KeyChar(arg[i])
    {
      p := p + 1;
    }
    RunUnique(arg, KeyChar, p);
    var key := if oom then None else Some(arg[..p]);
    var q := p;
    while q < |arg| && White(arg[q])
      invariant p <= q <= |arg|
      invariant forall i :: p <= i < q ==> White(arg[i])
    {
      q := q + 1;
    }
    RunUnique(arg[p..], White, q - p);
    r := Some(Scanned(key, p, q));
  }
}
