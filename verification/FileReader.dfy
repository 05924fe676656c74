/** The local file of "ip domain" pairs (tool/file_reader.c): an index from domains to file positions, filled by
    one pass of `fscanf` and used to read single addresses later. */
module FileReader {
  import opened Bytes
  import HashTable

  // ---- Tokens ----------------------------------------------------------------------------------------------

  /** `isspace`. */
  predicate IsSpace(c: Byte) {
    c == 32 || 9 <= c <= 13
  }

  /** Where the white space at p ends. */
  function SkipSpace(f: seq<Byte>, p: nat): (q: nat)
    requires p <= |f|
    ensures p <= q <= |f| && (q < |f| ==> !IsSpace(f[q]))
    decreases |f| - p
  {
    if p < |f| && IsSpace(f[p]) then SkipSpace(f, p + 1) else p
  }

  /** Where the word at p ends. */
  function WordEnd(f: seq<Byte>, p: nat): (q: nat)
    requires p <= |f|
    ensures p <= q <= |f| && (p < |f| && !IsSpace(f[p]) ==> p < q)
    decreases |f| - p
  {
    if p < |f| && !IsSpace(f[p]) then WordEnd(f, p + 1) else p
  }

  /** Octets 32 and 9 to 13 are skipped, up to the first other one. */
  lemma {:induction false} SkipSpaceMeans(f: seq<Byte>, p: nat)
    requires p <= |f|
    ensures var q := SkipSpace(f, p);
            && (forall i | p <= i < q :: f[i] == 32 || 9 <= f[i] <= 13)
            && (q < |f| ==> f[q] != 32 && !(9 <= f[q] <= 13))
    decreases |f| - p
  {
    if p < |f| && IsSpace(f[p]) {
      SkipSpaceMeans(f, p + 1);
    }
  }

  /** A word is of other octets than these, and goes on to the first of these. */
  lemma {:induction false} WordEndMeans(f: seq<Byte>, p: nat)
    requires p <= |f|
    ensures var q := WordEnd(f, p);
            && (forall i | p <= i < q :: f[i] != 32 && !(9 <= f[i] <= 13))
            && (q < |f| ==> f[q] == 32 || 9 <= f[q] <= 13)
    decreases |f| - p
  {
    if p < |f| && !IsSpace(f[p]) {
      WordEndMeans(f, p + 1);
    }
  }

  /** The first word at or after p. */
  function Word(f: seq<Byte>, p: nat): Option<Name>
    requires p <= |f|
  {
    var q := SkipSpace(f, p);
    if q == |f| then None else Some(f[q..WordEnd(f, q)])
  }

  /** Where reading it ends. */
  function AfterWord(f: seq<Byte>, p: nat): (q: nat)
    requires p <= |f|
    ensures p <= q <= |f| && (Word(f, p).Some? ==> p < q)
  {
    WordEnd(f, SkipSpace(f, p))
  }

  /** All words from p on. */
  function Words(f: seq<Byte>, p: nat): seq<Name>
    requires p <= |f|
    decreases |f| - p
  {
    if Word(f, p) == None then [] else [Word(f, p).value] + Words(f, AfterWord(f, p))
  }

  /** `%s`: the cursor moves over white space and a word. */
  method ReadWord(f: seq<Byte>, p: nat) returns (w: Option<Name>, next: nat)
    requires p <= |f|
    ensures w == Word(f, p) && next == AfterWord(f, p)
  {
    next := SkipWhite(f, p);
    if next == |f| {
      return None, next;
    }
    var start := next;
    while next < |f| && !IsSpace(f[next])
      invariant start <= next <= |f| && WordEnd(f, next) == WordEnd(f, start)
    {
      next := next + 1;
    }
    w := Some(f[start..next]);
  }

  /** White space in a format. */
  method SkipWhite(f: seq<Byte>, p: nat) returns (q: nat)
    requires p <= |f|
    ensures q == SkipSpace(f, p)
  {
    q := p;
    while q < |f| && IsSpace(f[q])
      invariant p <= q <= |f| && SkipSpace(f, q) == SkipSpace(f, p)
    {
      q := q + 1;
    }
  }

  /** Skipping white space loses no word. */
  lemma SkipWords(f: seq<Byte>, p: nat)
    requires p <= |f|
    ensures Word(f, SkipSpace(f, p)) == Word(f, p) && Words(f, SkipSpace(f, p)) == Words(f, p)
  {
    var q := SkipSpace(f, p);
    assert SkipSpace(f, q) == q;
  }

  // ---- A file that was written as pairs --------------------------------------------------------------------------

  datatype Pair = Pair(ip: Name, domain: Name)

  /** At least one octet, and none that is a space (32) or one of the control characters from tab to return (9 to 13). */
  predicate Plain(w: Name) {
    w != [] && forall i | 0 <= i < |w| :: w[i] != 32 && !(9 <= w[i] <= 13)
  }

  predicate PlainPairs(pairs: seq<Pair>) {
    forall i | 0 <= i < |pairs| :: Plain(pairs[i].ip) && Plain(pairs[i].domain)
  }

  /** Each pair on a line of its own: the address, a space (32), the domain, and a line feed (10). */
  function FileOf(pairs: seq<Pair>): seq<Byte> {
    if pairs == [] then [] else pairs[0].ip + [32] + pairs[0].domain + [10] + FileOf(pairs[1..])
  }

  function WordsOf(pairs: seq<Pair>): seq<Name> {
    if pairs == [] then [] else [pairs[0].ip, pairs[0].domain] + WordsOf(pairs[1..])
  }

  /** The white space or the word at p ends where the first other octet stands. */
  lemma {:induction false} EndsAt(f: seq<Byte>, p: nat, q: nat)
    requires p <= q <= |f| && (q < |f| ==> f[q] == 32 || 9 <= f[q] <= 13)
    requires forall i | p <= i < q :: f[i] != 32 && !(9 <= f[i] <= 13)
    ensures WordEnd(f, p) == q && (p < q ==> SkipSpace(f, p) == p)
    decreases q - p
  {
    if p < q {
      EndsAt(f, p + 1, q);
    }
  }

  /** What stands in front of a place in the file does not matter for what is read from there. */
  lemma {:induction false} SkipsBehind(pre: seq<Byte>, g: seq<Byte>, i: nat)
    requires i <= |g|
    ensures SkipSpace(pre + g, |pre| + i) == |pre| + SkipSpace(g, i)
    decreases |g| - i
  {
    if i < |g| {
      assert (pre + g)[|pre| + i] == g[i];
      SkipsBehind(pre, g, i + 1);
    }
  }

  lemma {:induction false} EndsBehind(pre: seq<Byte>, g: seq<Byte>, i: nat)
    requires i <= |g|
    ensures WordEnd(pre + g, |pre| + i) == |pre| + WordEnd(g, i)
    decreases |g| - i
  {
    if i < |g| {
      assert (pre + g)[|pre| + i] == g[i];
      EndsBehind(pre, g, i + 1);
    }
  }

  lemma WordBehind(pre: seq<Byte>, g: seq<Byte>, i: nat)
    requires i <= |g|
    ensures Word(pre + g, |pre| + i) == Word(g, i) && AfterWord(pre + g, |pre| + i) == |pre| + AfterWord(g, i)
  {
    var q := SkipSpace(g, i);
    SkipsBehind(pre, g, i);
    EndsBehind(pre, g, q);
    hide SkipSpace;
    assert (pre + g)[|pre| + q..|pre| + WordEnd(g, q)] == g[q..WordEnd(g, q)];
  }

  lemma {:induction false} WordsBehind(pre: seq<Byte>, g: seq<Byte>, i: nat)
    requires i <= |g|
    ensures Words(pre + g, |pre| + i) == Words(g, i)
    decreases |g| - i
  {
    WordBehind(pre, g, i);
    hide Word, AfterWord;
    if Word(g, i).Some? {
      WordsBehind(pre, g, AfterWord(g, i));
    }
  }

  /** A word, one octet of white space, and the rest. */
  lemma OneWord(w: Name, c: Byte, g: seq<Byte>)
    requires Plain(w) && (c == 32 || c == 10)
    ensures Words(w + [c] + g, 0) == [w] + Words(g, 0)
  {
    var pre := w + [c];
    var f := pre + g;
    FirstWord(w, c, g);
    assert f[|w|] == c;
    SkipWords(f, |w|);
    SkipWords(f, |w| + 1);
    assert SkipSpace(f, |w|) == SkipSpace(f, |w| + 1);
    WordsBehind(pre, g, 0);
    hide Word, AfterWord, SkipSpace, Plain;
  }

  lemma FirstWord(w: Name, c: Byte, g: seq<Byte>)
    requires Plain(w) && (c == 32 || c == 10)
    ensures Word(w + [c] + g, 0) == Some(w) && AfterWord(w + [c] + g, 0) == |w|
  {
    var f := w + [c] + g;
    assert f[|w|] == c && forall i | 0 <= i < |w| :: f[i] == w[i];
    EndsAt(f, 0, |w|);
    assert f[..|w|] == w;
  }

  /** Such a file has exactly these words. */
  lemma {:induction false} WordsAre(pairs: seq<Pair>)
    requires PlainPairs(pairs)
    ensures Words(FileOf(pairs), 0) == WordsOf(pairs)
    decreases |pairs|
  {
    if pairs != [] {
      var ip, d, rest := pairs[0].ip, pairs[0].domain, FileOf(pairs[1..]);
      Regroup(ip + [32], d + [10], rest);
      assert ip + [32] + d + [10] == ip + [32] + (d + [10]);
      OneWord(ip, 32, d + [10] + rest);
      OneWord(d, 10, rest);
      hide Words, Plain;
      WordsAre(pairs[1..]);
    }
  }

  lemma Regroup(a: seq<Byte>, b: seq<Byte>, c: seq<Byte>)
    ensures a + b + c == a + (b + c)
  {
  }

  /** The address of the last pair with the domain, or None without one. */
  ghost predicate LastOf(pairs: seq<Pair>, domain: Name, ip: Option<Name>) {
    && (ip == None <==> forall i | 0 <= i < |pairs| :: pairs[i].domain != domain)
    && (ip.Some? ==> exists i :: 0 <= i < |pairs| && pairs[i] == Pair(ip.value, domain)
                                 && forall j | i < j < |pairs| :: pairs[j].domain != domain)
  }

  lemma LastOfMore(pairs: seq<Pair>, last: Pair, domain: Name, ip: Option<Name>)
    requires LastOf(pairs, domain, ip)
    ensures LastOf(pairs + [last], domain, if last.domain == domain then Some(last.ip) else ip)
  {
    var more := pairs + [last];
    assert forall i | 0 <= i < |pairs| :: more[i] == pairs[i];
    assert more[|pairs|] == last;
    if last.domain != domain && ip.Some? {
      var i :| 0 <= i < |pairs| && pairs[i] == Pair(ip.value, domain)
               && forall j | i < j < |pairs| :: pairs[j].domain != domain;
      assert more[i] == Pair(ip.value, domain);
    }
  }

  lemma LastIpMore(ws: seq<Name>, last: Pair, domain: Name)
    ensures LastIp(ws + [last.ip, last.domain], domain)
         == if last.domain == domain then Some(last.ip) else LastIp(ws, domain)
  {
    assert (ws + [last.ip, last.domain])[..|ws|] == ws;
  }

  lemma {:induction false} LastOfWords(pairs: seq<Pair>, domain: Name)
    ensures |WordsOf(pairs)| % 2 == 0 && LastOf(pairs, domain, LastIp(WordsOf(pairs), domain))
    decreases |pairs|
  {
    if pairs != [] {
      var init, last := pairs[..|pairs| - 1], pairs[|pairs| - 1];
      LastOfWords(init, domain);
      WordsOfMore(init, last);
      LastOfMore(init, last, domain, LastIp(WordsOf(init), domain));
      LastIpMore(WordsOf(init), last, domain);
      assert pairs == init + [last];
      hide WordsOf, LastIp, LastOf;
    }
  }

  lemma {:induction false} WordsOfMore(pairs: seq<Pair>, last: Pair)
    ensures WordsOf(pairs + [last]) == WordsOf(pairs) + [last.ip, last.domain]
    decreases |pairs|
  {
    if pairs != [] {
      assert (pairs + [last])[1..] == pairs[1..] + [last];
      WordsOfMore(pairs[1..], last);
    } else {
      assert (pairs + [last])[1..] == [];
    }
  }

  /** On such a file a domain's answer is the address of the last pair with the domain, if there is one. */
  lemma PairsAnswered(pairs: seq<Pair>, domain: Name)
    requires PlainPairs(pairs)
    ensures LastOf(pairs, domain, Answer(Words(FileOf(pairs), 0), domain))
  {
    WordsAre(pairs);
    LastOfWords(pairs, domain);
    hide Words, WordsOf, FileOf, LastIp, LastOf;
  }

  lemma AllAnswered(domain: Name)
    ensures forall pairs | PlainPairs(pairs) :: LastOf(pairs, domain, Answer(Words(FileOf(pairs), 0), domain))
  {
    forall pairs | PlainPairs(pairs) ensures LastOf(pairs, domain, Answer(Words(FileOf(pairs), 0), domain)) {
      PairsAnswered(pairs, domain);
    }
  }

  // ---- What the file says ------------------------------------------------------------------------------------

  /** A linear scan for the last pair with this domain. */
  function LastIp(ws: seq<Name>, domain: Name): Option<Name> {
    if |ws| < 2 then None
    else if ws[|ws| - 1] == domain then Some(ws[|ws| - 2])
    else LastIp(ws[..|ws| - 2], domain)
  }

  /** The words in pairs; an odd one at the end is dropped. */
  function Paired(ws: seq<Name>): (r: seq<Name>)
    ensures r == ws || |r| == |ws| - 1
  {
    if |ws| % 2 == 0 then ws else ws[..|ws| - 1]
  }

  /** The domain of pair number i. */
  predicate IsPair(ws: seq<Name>, i: nat, domain: Name) {
    2 * i + 1 < |ws| && ws[2 * i + 1] == domain
  }

  /** It finds the address of the last pair with that domain, and nothing exactly when there is none. */
  lemma {:induction false} LastIpIsLast(ws: seq<Name>, domain: Name)
    requires |ws| % 2 == 0
    ensures LastIp(ws, domain) == None <==> forall i: nat :: !IsPair(ws, i, domain)
    ensures LastIp(ws, domain).Some? ==>
              exists i: nat :: IsPair(ws, i, domain) && LastIp(ws, domain) == Some(ws[2 * i]) && forall j | j > i :: !IsPair(ws, j, domain)
    decreases |ws|
  {
    if |ws| >= 2 {
      var init, n := ws[..|ws| - 2], |ws| / 2 - 1;
      LastIpIsLast(init, domain);
      assert 2 * n + 1 == |ws| - 1;
      assert forall i: nat | i < n :: IsPair(ws, i, domain) <==> IsPair(init, i, domain);
      if ws[|ws| - 1] == domain {
        assert IsPair(ws, n, domain) && forall j | j > n :: !IsPair(ws, j, domain);
      } else if LastIp(init, domain).Some? {
        var i: nat :| IsPair(init, i, domain) && LastIp(init, domain) == Some(init[2 * i]) && forall j | j > i :: !IsPair(init, j, domain);
        assert IsPair(ws, i, domain) && ws[2 * i] == init[2 * i];
      }
    }
  }

  /** What the index leads to for a domain: a linear scan, except that a dangling word at the end of the file is
      taken for a new address of the last domain, which `fscanf` has left in its buffer. */
  function Answer(ws: seq<Name>, domain: Name): Option<Name> {
    if |ws| % 2 == 1 && |ws| >= 3 && domain == ws[|ws| - 2] then Some(ws[|ws| - 1]) else LastIp(Paired(ws), domain)
  }

  /** The index agrees with a linear scan for every domain exactly when no word dangles at the end or it repeats the
      last address. */
  lemma AgreesWithScan(ws: seq<Name>)
    requires |ws| != 1
    ensures (forall domain :: Answer(ws, domain) == LastIp(Paired(ws), domain))
       <==> |ws| % 2 == 0 || ws[|ws| - 1] == ws[|ws| - 3]
  {
    if |ws| % 2 == 1 {
      var d := ws[|ws| - 2];
      assert Paired(ws)[|ws| - 2] == d && Paired(ws)[|ws| - 3] == ws[|ws| - 3];
      assert LastIp(Paired(ws), d) == Some(ws[|ws| - 3]);
      assert Answer(ws, d) == Some(ws[|ws| - 1]);
    }
  }

  // ---- The index ---------------------------------------------------------------------------------------------

  type PositionTable = HashTable.HashTab<nat>

  /** The table leads from each domain to the place in the file where its address stands. */
  ghost predicate Leads(f: seq<Byte>, table: map<Name, nat>, ws: seq<Name>) {
    && (forall d :: d in table <==> Answer(ws, d).Some?)
    && (forall d | d in table :: table[d] <= |f| && Word(f, table[d]) == Answer(ws, d))
  }

  lemma LeadsPair(f: seq<Byte>, table: map<Name, nat>, ws: seq<Name>, ip: Name, d: Name, cur: nat)
    requires Leads(f, table, ws) && |ws| % 2 == 0 && cur <= |f| && Word(f, cur) == Some(ip)
    ensures Leads(f, table[d := cur], ws + [ip, d])
  {
    var ws' := ws + [ip, d];
    hide Word;
    assert ws'[..|ws'| - 2] == ws && Paired(ws') == ws' && Paired(ws) == ws;
    assert forall x :: Answer(ws', x) == if x == d then Some(ip) else Answer(ws, x);
  }

  lemma LeadsDangling(f: seq<Byte>, table: map<Name, nat>, ws: seq<Name>, ip: Name, cur: nat)
    requires Leads(f, table, ws) && |ws| % 2 == 0 && ws != [] && cur <= |f| && Word(f, cur) == Some(ip)
    ensures Leads(f, table[ws[|ws| - 1] := cur], ws + [ip])
  {
    var ws' := ws + [ip];
    hide Word;
    assert Paired(ws') == ws && Paired(ws) == ws;
    assert forall x :: Answer(ws', x) == if x == ws[|ws| - 1] then Some(ip) else Answer(ws, x);
  }

  /** Domains that the hash table stores whole; a lone word leaves `domain` unset. */
  ghost predicate Indexable(ws: seq<Name>) {
    |ws| != 1 && forall i | 0 <= i < |ws| && i % 2 == 1 :: |ws[i]| < HashTable.KEY_MAX
  }

  class Reader {
    const file: seq<Byte>
    var pos: nat  // the file's cursor
    const index: PositionTable

    ghost predicate Valid()
      reads this, index, index.Repr
    {
      && pos <= |file| && index.Valid() && index.len >= 1 && this !in index.Repr
      && Leads(file, index.Contents, Words(file, 0))
    }

    /** `file_reader_alloc`. */
    constructor (file: seq<Byte>)
      requires Indexable(Words(file, 0))
      ensures Valid() && this.file == file
    {
      this.file := file;
      pos := 0;
      var t := new HashTable.HashTab<nat>();
      index := t;
      new;
      BuildIndex();
    }

    /** `file_reader_index`: one pass over the file. */
    method BuildIndex()
      requires pos == 0 && index.Valid() && index.len >= 1 && index.Contents == map[] && this !in index.Repr
      requires Indexable(Words(file, 0))
      modifies this`pos, index.Repr
      ensures Valid() && forall o | o in index.Repr :: o in old(index.Repr) || fresh(o)
    {
      hide HashTable.HashTab.Valid, HashTable.HashTab.Faithful, Word, Words, AfterWord, Leads, Answer, Indexable;
      var domain: Name := *;
      ghost var ws := [];
      LeadsNothing(file);
      while true
        invariant pos <= |file| && index.Valid() && index.len >= 1 && this !in index.Repr
        invariant forall o | o in index.Repr :: o in old(index.Repr) || fresh(o)
        invariant Words(file, 0) == ws + Words(file, pos) && |ws| % 2 == 0
        invariant ws != [] ==> domain == ws[|ws| - 1]
        invariant Leads(file, index.Contents, ws)
        decreases |file| - pos
      {
        var cur := pos;
        var ip, d;
        ip, pos := ReadWord(file, pos);
        if ip == None {
          NoWords(file, cur);
          assert Words(file, 0) == ws;
          break;
        }
        d, pos := ReadWord(file, pos);
        if d == None {
          LastWord(file, cur, ws);
          LeadsDangling(file, index.Contents, ws, ip.value, cur);
          index.Insert(domain, cur);
          break;
        }
        domain := d.value;
        NextPair(file, cur, ws);
        pos := SkipWhite(file, pos);
        LeadsPair(file, index.Contents, ws, ip.value, domain, cur);
        index.Insert(domain, cur);
        ws := ws + [ip.value, domain];
      }
    }

    /** `file_reader_get_a_record`. */
    method GetARecord(domain: Name) returns (ip: Option<Name>)
      requires Valid()
      modifies this`pos
      ensures Valid() && ip == Answer(Words(file, 0), domain)
      ensures forall pairs | PlainPairs(pairs) && file == FileOf(pairs) :: LastOf(pairs, domain, ip)
    {
      AllAnswered(domain);
      hide PlainPairs, FileOf, LastOf, Answer;
      hide HashTable.HashTab.Valid, Word, Words, AfterWord;
      var cur := index.Search(domain);
      if cur == None {
        return None;
      }
      pos := cur.value;
      ip, pos := ReadWord(file, pos);
    }
  }

  lemma LeadsNothing(f: seq<Byte>)
    ensures Leads(f, map[], [])
  {
  }

  lemma NoWords(f: seq<Byte>, p: nat)
    requires p <= |f| && Word(f, p) == None
    ensures Words(f, p) == []
  {
  }

  /** A pair of words after the words ws. */
  lemma NextPair(f: seq<Byte>, cur: nat, ws: seq<Name>)
    requires cur <= |f| && Words(f, 0) == ws + Words(f, cur) && |ws| % 2 == 0 && Indexable(Words(f, 0))
    requires Word(f, cur).Some? && Word(f, AfterWord(f, cur)).Some?
    ensures var ip, d := Word(f, cur).value, Word(f, AfterWord(f, cur)).value;
            && |d| < HashTable.KEY_MAX
            && Words(f, 0) == ws + [ip, d] + Words(f, SkipSpace(f, AfterWord(f, AfterWord(f, cur))))
  {
    var q := AfterWord(f, AfterWord(f, cur));
    SkipWords(f, q);
    var ip, d := Word(f, cur).value, Word(f, AfterWord(f, cur)).value;
    assert Words(f, cur) == [ip] + ([d] + Words(f, q));
    hide Words, Word, AfterWord, SkipSpace;
    assert Words(f, 0)[|ws| + 1] == d;
  }

  /** A word without a partner after the words ws. */
  lemma LastWord(f: seq<Byte>, cur: nat, ws: seq<Name>)
    requires cur <= |f| && Words(f, 0) == ws + Words(f, cur) && |ws| % 2 == 0 && Indexable(Words(f, 0))
    requires Word(f, cur).Some? && Word(f, AfterWord(f, cur)) == None
    ensures Words(f, 0) == ws + [Word(f, cur).value] && ws != [] && |ws[|ws| - 1]| < HashTable.KEY_MAX
  {
    assert Words(f, cur) == [Word(f, cur).value];
    hide Words, Word, AfterWord;
    assert Words(f, 0)[|ws| - 1] == ws[|ws| - 1];
  }
}
