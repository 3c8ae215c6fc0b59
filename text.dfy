/** The string operations the colour scraper applies to a table cell:
  * `str.strip()`, `str.replace('\n', '')` and `str.split(', ')`.
  */
module Text {

  /** The separator the scraper splits a cell on. */
  const Separator: string := ", "

  /** Whitespace removed by `strip()` among the ASCII characters: space, tab, line feed,
    * vertical tab, form feed, carriage return, and the separators 0x1C to 0x1F.
    */
  predicate IsSpace(c: char) {
    c == ' ' || c == '\t' || c == '\n' || c == '\U{B}' || c == '\U{C}' || c == '\r'
    || ('\U{1C}' <= c <= '\U{1F}')
  }

  predicate AllSpace(s: string) {
    forall i :: 0 <= i < |s| ==> IsSpace(s[i])
  }

  /** Neither end of `s` is whitespace: what `strip()` guarantees. */
  predicate Trimmed(s: string) {
    s == [] || (!IsSpace(s[0]) && !IsSpace(s[|s| - 1]))
  }

  /** `s` has the separator starting at position `i`. */
  predicate SeparatorAt(s: string, i: int) {
    0 <= i && i + 1 < |s| && s[i] == ',' && s[i + 1] == ' '
  }

  predicate HasSeparator(s: string) {
    exists i :: 0 <= i < |s| && SeparatorAt(s, i)
  }

  /** Leading whitespace removed (`lstrip()`). */
  function TrimStart(s: string): (r: string)
    ensures |r| <= |s|
    ensures r == [] || !IsSpace(r[0])
  {
    if s != [] && IsSpace(s[0]) then TrimStart(s[1..]) else s
  }

  /** What `lstrip()` keeps is a suffix, and what it cuts off is whitespace. */
  lemma {:induction false} TrimStartShape(s: string)
    ensures TrimStart(s) == s[|s| - |TrimStart(s)|..] && AllSpace(s[..|s| - |TrimStart(s)|])
  {
    if s != [] && IsSpace(s[0]) {
      TrimStartShape(s[1..]);
    }
  }

  /** Trailing whitespace removed (`rstrip()`). */
  function TrimEnd(s: string): (r: string)
    ensures |r| <= |s|
    ensures r == [] || (!IsSpace(r[|r| - 1]) && r[0] == s[0])
  {
    if s != [] && IsSpace(s[|s| - 1]) then TrimEnd(s[..|s| - 1]) else s
  }

  /** What `rstrip()` keeps is a prefix, and what it cuts off is whitespace. */
  lemma {:induction false} TrimEndShape(s: string)
    ensures TrimEnd(s) == s[..|TrimEnd(s)|] && AllSpace(s[|TrimEnd(s)|..])
  {
    if s != [] && IsSpace(s[|s| - 1]) {
      TrimEndShape(s[..|s| - 1]);
    }
  }

  /** `s.strip()`: both whitespace ends cut off. */
  function Strip(s: string): (r: string)
    ensures Trimmed(r) && |r| <= |s|
  {
    TrimEnd(TrimStart(s))
  }

  /** What `strip()` keeps is the piece of `s` after its leading whitespace, and what it
    * cuts off on either side is whitespace.
    */
  lemma StripShape(s: string)
    ensures var lead, r := |s| - |TrimStart(s)|, Strip(s);
      lead + |r| <= |s| && r == s[lead..lead + |r|] && AllSpace(s[..lead]) && AllSpace(s[lead + |r|..])
  {
    var t := TrimStart(s);
    var r := TrimEnd(t);
    var lead := |s| - |t|;
    TrimStartShape(s);
    TrimEndShape(t);
    assert s[lead + |r|..] == t[|r|..];
  }

  /** Every character of `Strip(s)` comes from `s`. */
  lemma StripChars(s: string)
    ensures forall c :: c in Strip(s) ==> c in s
  {
    var r := Strip(s);
    var lead := |s| - |TrimStart(s)|;
    StripShape(s);
    forall i | 0 <= i < |r| ensures r[i] in s {
      assert r[i] == s[lead + i];
    }
  }

  /** Whitespace only strips to the empty string, and nothing else does. */
  lemma StripEmpty(s: string)
    ensures Strip(s) == [] <==> AllSpace(s)
  {
    var lead := |s| - |TrimStart(s)|;
    StripShape(s);
    if Strip(s) == [] {
      assert s == s[..lead] + s[lead..];
    }
  }

  /** `strip()` leaves a string that has no whitespace ends unchanged, so it is idempotent. */
  lemma StripTrimmed(s: string)
    requires Trimmed(s)
    ensures Strip(s) == s
  {
    if s != [] {
      assert TrimStart(s) == s;
    }
  }

  /** `s.replace('\n', '')`: every newline deleted, everything else kept in order. */
  function DeleteNewlines(s: string): (r: string)
    ensures '\n' !in r && |r| <= |s|
  {
    if s == [] then []
    else if s[0] == '\n' then DeleteNewlines(s[1..])
    else [s[0]] + DeleteNewlines(s[1..])
  }

  /** Deleting the newlines keeps every other character, as often as it occurs, and adds
    * none; a text without newlines is left as it is.
    */
  lemma {:induction false} DeleteNewlinesKeeps(s: string)
    ensures forall c :: c in DeleteNewlines(s) <==> c in s && c != '\n'
    ensures multiset(DeleteNewlines(s)) == multiset(s)['\n' := 0]
    ensures '\n' !in s ==> DeleteNewlines(s) == s
  {
    if s != [] {
      DeleteNewlinesKeeps(s[1..]);
      assert s == [s[0]] + s[1..];
      assert multiset(s) == multiset([s[0]]) + multiset(s[1..]);
    }
  }

  /** Deleting newlines works character by character, in order: a newline becomes "",
    * any other character stays, and the pieces of a text are treated independently.
    */
  lemma {:induction false} DeleteNewlinesAppend(a: string, b: string)
    ensures DeleteNewlines(a + b) == DeleteNewlines(a) + DeleteNewlines(b)
    ensures DeleteNewlines(['\n']) == []
    ensures forall c :: c != '\n' ==> DeleteNewlines([c]) == [c]
  {
    if a != [] {
      assert (a + b)[0] == a[0] && (a + b)[1..] == a[1..] + b;
      DeleteNewlinesAppend(a[1..], b);
    } else {
      assert a + b == b;
    }
  }

  /** `s.split(', ')`: the pieces between the separators, scanning from the left. */
  function Split(s: string): (r: seq<string>)
    ensures |r| >= 1
  {
    if |s| < 2 then [s]
    else if SeparatorAt(s, 0) then [[]] + Split(s[2..])
    else
      var rest := Split(s[1..]);
      [[s[0]] + rest[0]] + rest[1..]
  }

  /** Every character of every piece of a split comes from the text. */
  lemma {:induction false} SplitChars(s: string)
    ensures forall p, c :: p in Split(s) && c in p ==> c in s
  {
    if |s| < 2 {
    } else if SeparatorAt(s, 0) {
      SplitChars(s[2..]);
    } else {
      SplitChars(s[1..]);
      var rest := Split(s[1..]);
      assert rest[0] in rest;
      forall p, c | p in Split(s) && c in p ensures c in s {
        if p == [s[0]] + rest[0] {
        } else {
          assert p in rest;
        }
      }
    }
  }

  /** `', '.join(parts)`. */
  function Join(parts: seq<string>): string
    requires |parts| >= 1
  {
    if |parts| == 1 then parts[0] else parts[0] + Separator + Join(parts[1..])
  }

  /** Prepending a character to the first part prepends it to the joined text. */
  lemma JoinConsFirst(c: char, parts: seq<string>, q: seq<string>)
    requires |parts| >= 1 && |q| == |parts|
    requires q[0] == [c] + parts[0] && q[1..] == parts[1..]
    ensures Join(q) == [c] + Join(parts)
  {
    if |parts| > 1 {
      var tail := Join(parts[1..]);
      assert Join(q) == ([c] + parts[0]) + (Separator + tail);
      assert Join(parts) == parts[0] + (Separator + tail);
    }
  }

  /** Splitting and joining back with the same separator gives the original text. */
  lemma {:induction false} JoinSplit(s: string)
    ensures Join(Split(s)) == s
  {
    if |s| < 2 {
    } else if SeparatorAt(s, 0) {
      JoinSplit(s[2..]);
      assert s == Separator + s[2..];
    } else {
      JoinSplit(s[1..]);
      var rest := Split(s[1..]);
      assert Split(s)[1..] == rest[1..];
      JoinConsFirst(s[0], rest, Split(s));
      assert s == [s[0]] + s[1..];
    }
  }

  /** No piece of a split contains the separator. */
  lemma {:induction false} SplitPiecesHaveNoSeparator(s: string)
    ensures forall p :: p in Split(s) ==> !HasSeparator(p)
  {
    if |s| < 2 {
      assert forall i :: !SeparatorAt(s, i);
    } else if SeparatorAt(s, 0) {
      SplitPiecesHaveNoSeparator(s[2..]);
    } else {
      var rest := Split(s[1..]);
      SplitPiecesHaveNoSeparator(s[1..]);
      SplitFirstPrefix(s[1..]);
      var first := [s[0]] + rest[0];
      assert rest[0] in rest;
      forall i | 0 <= i < |first| ensures !SeparatorAt(first, i) {
        if i == 0 && |first| > 1 {
          assert rest[0][0] == s[1..][0];
          assert first[0] == s[0] && first[1] == s[1];
        } else if i > 0 && i + 1 < |first| {
          assert first[i] == rest[0][i - 1] && first[i + 1] == rest[0][i];
          assert !SeparatorAt(rest[0], i - 1);
        }
      }
      forall p | p in Split(s) ensures !HasSeparator(p) {
        if p != first { assert p in rest[1..]; }
      }
    }
  }

  /** The first piece of a split is a prefix of the text. */
  lemma {:induction false} SplitFirstPrefix(s: string)
    ensures |Split(s)[0]| <= |s| && Split(s)[0] == s[..|Split(s)[0]|]
  {
    if |s| >= 2 && !SeparatorAt(s, 0) {
      SplitFirstPrefix(s[1..]);
    }
  }
}
