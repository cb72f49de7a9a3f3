/**
 * Object names in shared memory (common/include/common.hpp:29-69): the bucket, a bar, the key
 * and the session, the last two without anything in between.
 */
module BucketNames {
  const DELIMITER := '|'
  const SESSION_SIZE := 16

  datatype BucketKey = BucketKey(bucket: string, key: string, session: string)

  function Name(b: BucketKey): string {
    b.bucket + [DELIMITER] + (b.key + b.session)
  }

  /** The position of the first delimiter, or the length if there is none. */
  function Find(s: string): (i: nat)
    ensures i <= |s| && (i < |s| ==> s[i] == DELIMITER) && DELIMITER !in s[..i]
  {
    if s == "" || s[0] == DELIMITER then 0
    else
      assert forall j :: 0 < j <= |s| ==> s[..j] == [s[0]] + s[1..][..j - 1];
      1 + Find(s[1..])
  }

  /** The last 16 characters are the session; a text of at most 16 yields nothing at all. */
  function FromSessionKey(bucket: string, text: string): BucketKey {
    if |text| > SESSION_SIZE
    then BucketKey(bucket, text[..|text| - SESSION_SIZE], text[|text| - SESSION_SIZE..])
    else BucketKey(bucket, "", "")
  }

  /** Without a delimiter the whole text serves as the bucket and again as key and session. */
  function Parse(s: string): BucketKey {
    var i := Find(s);
    if i < |s| then FromSessionKey(s[..i], s[i + 1..]) else FromSessionKey(s, s)
  }

  /** Where the parts stand in a name. */
  lemma NameLayout(b: BucketKey)
    ensures var s, i, j := Name(b), |b.bucket|, |b.bucket| + 1 + |b.key|;
            && |s| == j + |b.session| && s[..i] == b.bucket && s[i] == '|' && s[i + 1..j] == b.key && s[j..] == b.session
  {
    var s, j := Name(b), |b.bucket| + 1 + |b.key|;
    assert s[|b.bucket| + 1..] == b.key + b.session;
    assert s[|b.bucket| + 1..j] == (b.key + b.session)[..|b.key|];
  }

  /** What is read from a text: the bucket before the first bar; of what follows it, the last 16
      characters as the session and those before as the key, or nothing if there are no more than
      16. A text without a bar is all of these itself. */
  lemma ParseLayout(s: string, i: nat)
    requires i <= |s| && '|' !in s[..i] && (i < |s| ==> s[i] == '|')
    ensures var b, from := Parse(s), if i < |s| then i + 1 else 0;
            && b.bucket == s[..i]
            && (if |s| - from > 16 then b.key == s[from..|s| - 16] && b.session == s[|s| - 16..]
                else b.key == "" && b.session == "")
  {
    FindIs(s, i);
    assert s[..|s|] == s && s[0..] == s;
  }

  lemma FindIs(s: string, i: nat)
    requires i <= |s| && DELIMITER !in s[..i] && (i < |s| ==> s[i] == DELIMITER)
    ensures Find(s) == i
  {
    var j := Find(s);
    forall x | 0 <= x < i ensures s[x] != DELIMITER { assert s[x] == s[..i][x]; }
    forall x | 0 <= x < j ensures s[x] != DELIMITER { assert s[x] == s[..j][x]; }
  }

  lemma FindIn(bucket: string, rest: string)
    ensures DELIMITER !in bucket ==> Find(bucket + [DELIMITER] + rest) == |bucket|
    ensures DELIMITER in bucket ==> Find(bucket + [DELIMITER] + rest) < |bucket|
  {
    var s := bucket + [DELIMITER] + rest;
    var i := Find(s);
    assert s[|bucket|] == DELIMITER;
    if i < |bucket| { assert s[i] == bucket[i]; }
    if i == |bucket| { assert s[..i] == bucket; }
  }

  lemma SplitSession(bucket: string, key: string, session: string)
    ensures FromSessionKey(bucket, key + session) == BucketKey(bucket, key, session)
       <==> (key != "" && |session| == SESSION_SIZE) || key + session == ""
  {
    var text := key + session;
    if |session| == SESSION_SIZE {
      assert text[..|key|] == key && text[|key|..] == session;
    }
  }

  /** A name gives its parts back exactly when the bucket has no bar and the session has 16
      characters after a nonempty key, or both are empty. */
  lemma RoundTripIff(b: BucketKey)
    ensures Parse(Name(b)) == b
       <==> '|' !in b.bucket && ((b.key != "" && |b.session| == 16) || b.key + b.session == "")
  {
    var s, rest := Name(b), b.key + b.session;
    FindIn(b.bucket, rest);
    if DELIMITER !in b.bucket {
      assert s[..|b.bucket|] == b.bucket && s[|b.bucket| + 1..] == rest;
      SplitSession(b.bucket, b.key, b.session);
      assert rest == "" <==> b.key == "" && b.session == "";
    }
  }

  /** So such names are different for different objects. */
  lemma NamesDistinct(a: BucketKey, b: BucketKey)
    requires DELIMITER !in a.bucket && DELIMITER !in b.bucket
    requires a.key != "" && b.key != "" && |a.session| == |b.session| == SESSION_SIZE
    ensures Name(a) == Name(b) <==> a == b
  {
    RoundTripIff(a);
    RoundTripIff(b);
  }

  lemma NameOfParts(bucket: string, text: string)
    ensures Name(FromSessionKey(bucket, text)) == bucket + [DELIMITER] + (if |text| > SESSION_SIZE then text else "")
  {
    var b := FromSessionKey(bucket, text);
    if |text| > SESSION_SIZE { assert b.key + b.session == text; }
  }

  lemma Rejoin(s: string, i: nat)
    requires i < |s| && s[i] == DELIMITER
    ensures s[..i] + [DELIMITER] + s[i + 1..] == s
    ensures s[..i] + [DELIMITER] + "" == s <==> i + 1 == |s|
  {
    assert |s[..i] + [DELIMITER] + ""| == i + 1;
  }

  /** A text is the name of its parts exactly when it has a bar with nothing or with more
      than 16 characters behind it. */
  lemma ParseIff(s: string)
    ensures Name(Parse(s)) == s <==> Find(s) < |s| && (Find(s) + 1 == |s| || |s| - Find(s) - 1 > SESSION_SIZE)
  {
    var i := Find(s);
    if i < |s| {
      NameOfParts(s[..i], s[i + 1..]);
      Rejoin(s, i);
    } else {
      NameOfParts(s, s);
      assert |Name(FromSessionKey(s, s))| > |s|;
    }
  }
}
