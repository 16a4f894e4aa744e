/** Splitting and joining of text at a separator, as Rust's `str::split`, Go's
    `strings.Split` and JavaScript's `String.split` do it: n separators give n + 1
    tokens, so the empty text gives one empty token. */
module Text {

  function Split(s: string, sep: char): (tokens: seq<string>)
    ensures |tokens| >= 1
  {
    if s == "" then [""]
    else
      var rest := Split(s[1..], sep);
      if s[0] == sep then [""] + rest else [[s[0]] + rest[0]] + rest[1..]
  }

  function Join(tokens: seq<string>, sep: char): string
    requires |tokens| >= 1
  {
    if |tokens| == 1 then tokens[0] else tokens[0] + [sep] + Join(tokens[1..], sep)
  }

  /** A token with no separator inside, put before a separator, is split off first. */
  lemma {:induction false} SplitFirst(token: string, rest: string, sep: char)
    requires sep !in token
    ensures Split(token + [sep] + rest, sep) == [token] + Split(rest, sep)
  {
    var s := token + [sep] + rest;
    if token == "" {
      assert s[1..] == rest;
    } else {
      SplitFirst(token[1..], rest, sep);
      assert s[1..] == token[1..] + [sep] + rest;
      assert [s[0]] + token[1..] == token;
    }
  }

  lemma {:induction false} SplitLast(token: string, sep: char)
    requires sep !in token
    ensures Split(token, sep) == [token]
  {
    if token != "" {
      SplitLast(token[1..], sep);
      assert [token[0]] + token[1..] == token;
    }
  }

  /** Splitting undoes joining, for tokens that do not contain the separator. */
  lemma {:induction false} SplitJoin(tokens: seq<string>, sep: char)
    requires |tokens| >= 1
    requires forall t :: t in tokens ==> sep !in t
    ensures Split(Join(tokens, sep), sep) == tokens
  {
    if |tokens| == 1 {
      SplitLast(tokens[0], sep);
    } else {
      SplitFirst(tokens[0], Join(tokens[1..], sep), sep);
      SplitJoin(tokens[1..], sep);
    }
  }

  /** `needle` occurs somewhere in `s`. */
  predicate Contains(s: string, needle: string) {
    exists i | 0 <= i <= |s| :: needle <= s[i..]
  }
}
