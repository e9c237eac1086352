/** What kind of statement a query event holds, by its first word. */
module Statements {
  import opened Bytes

  datatype Category = BeginStatement | CommitStatement | RollbackStatement | OtherStatement

  function LowerByte(c: byte): byte {
    if 65 <= c <= 90 then c + 32 else c
  }

  function Lower(b: bytes): bytes {
    seq(|b|, i requires 0 <= i < |b| => LowerByte(b[i]))
  }

  function FirstWord(sql: bytes): bytes {
    if sql == [] || sql[0] == 32 then [] else [sql[0]] + FirstWord(sql[1..])
  }

  const BEGIN: bytes := [98, 101, 103, 105, 110]
  const COMMIT: bytes := [99, 111, 109, 109, 105, 116]
  const ROLLBACK: bytes := [114, 111, 108, 108, 98, 97, 99, 107]

  function StatementCategory(sql: bytes): Category {
    var word := Lower(FirstWord(sql));
    if word == BEGIN then BeginStatement
    else if word == COMMIT then CommitStatement
    else if word == ROLLBACK then RollbackStatement
    else OtherStatement
  }

  // ---------- from the text ----------

  /** Letter by letter, in any case. */
  predicate SameLetters(w: bytes, word: string)
    requires |w| >= |word|
  {
    forall i :: 0 <= i < |word| ==> (w[i] as int) == (word[i] as int) || (w[i] as int) + 32 == (word[i] as int)
  }

  /** The statement begins with this word, in any case, and a blank or nothing follows it. */
  predicate Says(sql: bytes, word: string) {
    |word| <= |sql| && SameLetters(sql, word) && (|sql| == |word| || sql[|word|] == 32)
  }

  lemma FirstWordIs(sql: bytes)
    ensures var w := FirstWord(sql);
            w <= sql && 32 !in w && (|w| == |sql| || sql[|w|] == 32)
  {
  }

  lemma {:induction false} FirstWordLength(sql: bytes, k: nat)
    requires k <= |sql| && 32 !in sql[..k] && (k == |sql| || sql[k] == 32)
    ensures |FirstWord(sql)| == k
  {
    if k > 0 {
      assert sql[0] == sql[..k][0] && sql[..k][1..] == sql[1..][..k - 1];
      FirstWordLength(sql[1..], k - 1);
    }
  }

  predicate IsCode(word: string, code: bytes) {
    |word| == |code| && forall i :: 0 <= i < |code| ==> 97 <= code[i] <= 122 && (word[i] as int) == (code[i] as int)
  }

  lemma LowerIs(w: bytes, word: string, code: bytes)
    requires IsCode(word, code) && |w| == |word|
    ensures Lower(w) == code <==> SameLetters(w, word)
  {
    if SameLetters(w, word) {
      assert forall i :: 0 <= i < |w| ==> LowerByte(w[i]) == code[i];
    } else {
      var i :| 0 <= i < |w| && (w[i] as int) != (word[i] as int) && (w[i] as int) + 32 != (word[i] as int);
      assert Lower(w)[i] != code[i];
    }
  }

  lemma WordSays(sql: bytes, word: string, code: bytes)
    requires IsCode(word, code)
    ensures Lower(FirstWord(sql)) == code <==> Says(sql, word)
  {
    FirstWordIs(sql);
    var w := FirstWord(sql);
    hide FirstWord;
    if Says(sql, word) {
      FirstWordLength(sql, |word|);
    }
    if |w| == |word| {
      hide Lower;
      LowerIs(w, word, code);
    }
  }

  /** BEGIN, COMMIT and ROLLBACK are what is spelt so, in any case, and everything else is another statement. */
  lemma CategoryByText(sql: bytes)
    ensures StatementCategory(sql) == BeginStatement <==> Says(sql, "begin")
    ensures StatementCategory(sql) == CommitStatement <==> Says(sql, "commit")
    ensures StatementCategory(sql) == RollbackStatement <==> Says(sql, "rollback")
  {
    hide FirstWord, Lower, Says;
    WordSays(sql, "begin", BEGIN);
    WordSays(sql, "commit", COMMIT);
    WordSays(sql, "rollback", ROLLBACK);
  }
}
