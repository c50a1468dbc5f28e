/** The string functions that mnemonics go through. */
module Words {
  predicate IsSpace(c: char) {
    c in {'\t', '\n', '\U{0B}', '\U{0C}', '\r', ' ', '\U{85}', '\U{A0}', '\U{1680}', '\U{2028}', '\U{2029}', '\U{202F}',
      '\U{205F}', '\U{3000}'} || '\U{2000}' <= c <= '\U{200A}'
  }

  predicate IsWord(w: string) {
    w != [] && forall i :: 0 <= i < |w| ==> !IsSpace(w[i])
  }

  predicate AreWords(ws: seq<string>) {
    forall i :: 0 <= i < |ws| ==> IsWord(ws[i])
  }

  /** strings.Join with one space */
  function Join(ws: seq<string>): string {
    if ws == [] then [] else if |ws| == 1 then ws[0] else ws[0] + [' '] + Join(ws[1..])
  }

  /** How many characters come before the first space of any kind. */
  function WordLength(s: string): (n: nat)
    ensures n <= |s| && (forall i :: 0 <= i < n ==> !IsSpace(s[i])) && (n < |s| ==> IsSpace(s[n]))
  {
    if s == [] || IsSpace(s[0]) then 0 else 1 + WordLength(s[1..])
  }

  /** strings.Fields: the words between runs of white space. */
  function Fields(s: string): (ws: seq<string>)
    ensures AreWords(ws)
    decreases |s|
  {
    if s == [] then []
    else if IsSpace(s[0]) then Fields(s[1..])
    else [s[..WordLength(s)]] + Fields(s[WordLength(s)..])
  }

  /** Where the first plain space is. */
  function FirstSpace(s: string): (n: nat)
    ensures n <= |s| && (forall i :: 0 <= i < n ==> s[i] != ' ') && (n < |s| ==> s[n] == ' ')
  {
    if s == [] || s[0] == ' ' then 0 else 1 + FirstSpace(s[1..])
  }

  /** strings.Split at single spaces. */
  function Split(s: string): seq<string>
    decreases |s|
  {
    var n := FirstSpace(s);
    if n == |s| then [s] else [s[..n]] + Split(s[n + 1..])
  }

  lemma WordFirst(w: string, s: string)
    requires IsWord(w) && (s != [] ==> IsSpace(s[0]))
    ensures Fields(w + s) == [w] + Fields(s)
  {
    var t := w + s;
    var n := WordLength(t);
    assert forall i :: 0 <= i < |w| ==> t[i] == w[i];
    assert s != [] ==> t[|w|] == s[0];
    assert n == |w|;
    assert t[..n] == w && t[n..] == s && t[0] == w[0];
  }

  /** Joined words fall apart into the same words. */
  lemma {:induction false} FieldsOfJoin(ws: seq<string>)
    requires AreWords(ws)
    ensures Fields(Join(ws)) == ws
  {
    if |ws| == 1 {
      WordFirst(ws[0], []);
      assert ws[0] + [] == ws[0];
    } else if ws != [] {
      FieldsOfJoin(ws[1..]);
      var rest := [' '] + Join(ws[1..]);
      assert Join(ws) == ws[0] + rest;
      WordFirst(ws[0], rest);
      assert rest[1..] == Join(ws[1..]);
    }
  }

  lemma {:induction false} SplitOfJoin(ws: seq<string>)
    requires AreWords(ws) && ws != []
    ensures Split(Join(ws)) == ws
  {
    if |ws| == 1 {
      assert FirstSpace(ws[0]) == |ws[0]|;
    } else {
      SplitOfJoin(ws[1..]);
      SplitFirst(ws[0], Join(ws[1..]));
      assert ws == [ws[0]] + ws[1..];
    }
  }

  lemma SplitFirst(w: string, s: string)
    requires IsWord(w)
    ensures Split(w + [' '] + s) == [w] + Split(s)
  {
    var t := w + [' '] + s;
    var n := FirstSpace(t);
    assert forall i :: 0 <= i < |w| ==> t[i] == w[i];
    assert t[|w|] == ' ' && n == |w|;
    assert t[..n] == w && t[n + 1..] == s;
  }
}
