/** Social messages (social/models.py): the hashtags of a message and the query of the
    messages of one creator.

    `Message.tags` is `re.findall(r"(?u)#([^\W]+)", content)`: a left-to-right scan that, at
    each '#' followed by a word character, takes the longest run of word characters and goes
    on after it. `TagsSpec` states the same list position by position; `TagsMatchSpec` proves
    the two agree. */
module Social {
  import opened Wrappers
  import opened Text

  /** Python's `\w` in Unicode mode below U+0250: the ASCII class, then the characters of
      Latin-1 that `str.isalnum` accepts (the feminine and masculine ordinals, micro sign,
      superscript digits, vulgar fractions and the letters, without × and ÷), and the Latin
      Extended-A and -B letters. */
  predicate IsTagChar(c: char) {
    IsWordChar(c)
    || c == '\U{AA}' || c == '\U{B2}' || c == '\U{B3}' || c == '\U{B5}' || c == '\U{B9}' || c == '\U{BA}'
    || ('\U{BC}' <= c <= '\U{BE}')
    || ('\U{C0}' <= c <= '\U{24F}' && c != '\U{D7}' && c != '\U{F7}')
  }

  predicate AllTagChars(s: string) {
    forall i :: 0 <= i < |s| ==> IsTagChar(s[i])
  }

  /** The length of the longest prefix of word characters. */
  function WordRun(s: string): (n: nat)
    ensures n <= |s|
    ensures AllTagChars(s[..n])
    ensures n < |s| ==> !IsTagChar(s[n])
    decreases |s|
  {
    if |s| > 0 && IsTagChar(s[0]) then
      var m := WordRun(s[1..]);
      assert s[..1 + m] == [s[0]] + s[1..][..m];
      1 + m
    else 0
  }

  /** Whether a tag starts at `i`: a '#' followed by a word character. */
  predicate HashAt(s: string, i: int) {
    0 <= i && i + 1 < |s| && s[i] == '#' && IsTagChar(s[i + 1])
  }

  /** The tag of the '#' at `i`: the longest run of word characters after it. */
  function TagAt(s: string, i: int): (t: string)
    requires HashAt(s, i)
    ensures |t| > 0 && AllTagChars(t)
  {
    var n := WordRun(s[i + 1..]);
    s[i + 1..][..n]
  }

  /** `Message.tags`: the scan `re.findall` performs. */
  function Tags(s: string): (r: seq<string>)
    ensures forall k :: 0 <= k < |r| ==> |r[k]| > 0 && AllTagChars(r[k])
    decreases |s|
  {
    if |s| < 2 then []
    else if s[0] == '#' && IsTagChar(s[1]) then
      var n := WordRun(s[1..]);
      [s[1..][..n]] + Tags(s[1 + n..])
    else Tags(s[1..])
  }

  /** The reference: one tag for every position holding a '#' followed by a word character,
      in the order of the positions. */
  function TagsSpec(s: string): seq<string>
    decreases |s|
  {
    if |s| == 0 then []
    else (if HashAt(s, 0) then [TagAt(s, 0)] else []) + TagsSpec(s[1..])
  }

  /** A run of word characters holds no '#', so no tag starts inside it. */
  lemma {:induction false} SkipRun(t: string, k: nat)
    requires k <= |t| && AllTagChars(t[..k])
    ensures TagsSpec(t) == TagsSpec(t[k..])
    decreases k
  {
    if k > 0 {
      assert IsTagChar(t[..k][0]);
      assert !HashAt(t, 0);
      assert t[1..][..k - 1] == t[1..k];
      var u := t[1..][..k - 1];
      forall i | 0 <= i < |u|
        ensures IsTagChar(u[i])
      {
        assert u[i] == t[..k][i + 1];
      }
      SkipRun(t[1..], k - 1);
      assert t[1..][k - 1..] == t[k..];
    }
  }

  /** The scan finds exactly the tags of the reference. */
  lemma {:induction false} TagsMatchSpec(s: string)
    ensures Tags(s) == TagsSpec(s)
    decreases |s|
  {
    if |s| < 2 {
      if |s| == 1 {
        assert !HashAt(s, 0);
        assert TagsSpec(s) == TagsSpec(s[1..]);
      }
    } else if s[0] == '#' && IsTagChar(s[1]) {
      var n := WordRun(s[1..]);
      SkipRun(s[1..], n);
      assert s[1..][n..] == s[1 + n..];
      TagsMatchSpec(s[1 + n..]);
      assert TagsSpec(s) == [TagAt(s, 0)] + TagsSpec(s[1..]);
    } else {
      assert !HashAt(s, 0);
      TagsMatchSpec(s[1..]);
    }
  }

  /** A text has no tag exactly when no '#' in it is followed by a word character. */
  lemma {:induction false} NoTags(s: string)
    ensures Tags(s) == [] <==> forall i :: 0 <= i < |s| ==> !HashAt(s, i)
    decreases |s|
  {
    TagsMatchSpec(s);
    NoTagsSpec(s);
  }

  lemma {:induction false} NoTagsSpec(s: string)
    ensures TagsSpec(s) == [] <==> forall i :: 0 <= i < |s| ==> !HashAt(s, i)
    decreases |s|
  {
    if |s| > 0 {
      NoTagsSpec(s[1..]);
      forall i | 1 <= i < |s|
        ensures HashAt(s, i) == HashAt(s[1..], i - 1)
      {
      }
      if HashAt(s, 0) {
        assert |TagsSpec(s)| > 0;
      } else {
        assert TagsSpec(s) == TagsSpec(s[1..]);
        if forall j :: 0 <= j < |s[1..]| ==> !HashAt(s[1..], j) {
          forall i | 0 <= i < |s|
            ensures !HashAt(s, i)
          {
            if i > 0 {
              assert !HashAt(s[1..], i - 1);
            }
          }
        } else {
          var j :| 0 <= j < |s[1..]| && HashAt(s[1..], j);
          assert HashAt(s, j + 1);
        }
      }
    }
  }

  /** Text without a '#' starts no tag. */
  lemma {:induction false} TagsSkipPlain(p: string, t: string)
    requires '#' !in p
    ensures Tags(p + t) == Tags(t)
    decreases |p|
  {
    if |p| == 0 {
      assert p + t == t;
    } else {
      if |p + t| < 2 {
        assert t == [];
      } else {
        assert (p + t)[0] == p[0] && (p + t)[1..] == p[1..] + t;
        assert p[0] != '#' && '#' !in p[1..];
        TagsSkipPlain(p[1..], t);
      }
    }
  }

  /** A '#' followed by a whole run of word characters gives that run as the next tag. */
  lemma TagsTakeRun(w: string, t: string)
    requires |w| > 0 && AllTagChars(w)
    requires |t| == 0 || !IsTagChar(t[0])
    ensures Tags("#" + w + t) == [w] + Tags(t)
  {
    var s := "#" + w + t;
    RunOfWord(w, t);
    assert s[1..] == w + t;
    assert s[1..][..|w|] == w && s[1 + |w|..] == t;
  }

  lemma RunOfWord(w: string, t: string)
    requires AllTagChars(w)
    requires |t| == 0 || !IsTagChar(t[0])
    ensures WordRun(w + t) == |w|
    decreases |w|
  {
    if |w| > 0 {
      assert (w + t)[0] == w[0] && (w + t)[1..] == w[1..] + t;
      RunOfWord(w[1..], t);
    } else {
      assert w + t == t;
    }
  }

  /** The example of the message tests: digits, letters with accents and underscores all
      belong to a tag, and the spaces end them. */
  lemma TagsExample(s: string)
    requires s == "abc #123 #cde #voil\U{E0}_l_\U{E9}t\U{E9} #789"
    ensures Tags(s) == ["123", "cde", "voil\U{E0}_l_\U{E9}t\U{E9}", "789"]
  {
    ExampleWords();
    ExampleText(s);
    FourTags("abc ", "123", "cde", "voil\U{E0}_l_\U{E9}t\U{E9}", "789");
  }

  lemma ExampleWords()
    ensures AllTagChars("123") && AllTagChars("cde") && AllTagChars("789")
    ensures AllTagChars("voil\U{E0}_l_\U{E9}t\U{E9}")
  {
  }

  lemma ExampleText(s: string)
    requires s == "abc #123 #cde #voil\U{E0}_l_\U{E9}t\U{E9} #789"
    ensures s == "abc " + ("#" + "123" + (" " + ("#" + "cde" + (" " + ("#" + "voil\U{E0}_l_\U{E9}t\U{E9}" + (" " + ("#" + "789" + "")))))))
  {
  }

  lemma FourTags(p: string, w1: string, w2: string, w3: string, w4: string)
    requires '#' !in p
    requires |w1| > 0 && |w2| > 0 && |w3| > 0 && |w4| > 0
    requires AllTagChars(w1) && AllTagChars(w2) && AllTagChars(w3) && AllTagChars(w4)
    ensures Tags(p + ("#" + w1 + (" " + ("#" + w2 + (" " + ("#" + w3 + (" " + ("#" + w4 + ""))))))))
         == [w1, w2, w3, w4]
  {
    var s4 := "#" + w4 + "";
    TagsTakeRun(w4, "");
    var s3 := "#" + w3 + (" " + s4);
    TagThenSpace(w3, s4);
    var ts3 := Tags(s3);
    assert ts3 == [w3, w4];
    var s1 := "#" + w1 + (" " + ("#" + w2 + (" " + s3)));
    TwoTags(w1, w2, s3);
    TagsSkipPlain(p, s1);
  }

  lemma TwoTags(w1: string, w2: string, t: string)
    requires |w1| > 0 && AllTagChars(w1) && |w2| > 0 && AllTagChars(w2)
    ensures Tags("#" + w1 + (" " + ("#" + w2 + (" " + t)))) == [w1, w2] + Tags(t)
  {
    TagThenSpace(w2, t);
    TagThenSpace(w1, "#" + w2 + (" " + t));
  }

  lemma TagThenSpace(w: string, t: string)
    requires |w| > 0 && AllTagChars(w)
    ensures Tags("#" + w + (" " + t)) == [w] + Tags(t)
  {
    TagsTakeRun(w, " " + t);
    TagsSkipPlain(" ", t);
  }

  // ---------------------------------------------------------------------------
  // MessageQuery.by_creator
  // ---------------------------------------------------------------------------

  /** A message and the id of its creator (None when the column is null). */
  datatype Message = Message(id: nat, creatorId: Option<nat>, content: string)

  /** `by_creator`: the messages whose creator is the user, in query order. */
  function ByCreator(ms: seq<Message>, user: nat): (r: seq<Message>)
    ensures forall m :: m in r <==> m in ms && m.creatorId == Some(user)
    ensures |r| <= |ms|
  {
    if |ms| == 0 then []
    else (if ms[0].creatorId == Some(user) then [ms[0]] else []) + ByCreator(ms[1..], user)
  }

  /** The filter works message by message: on a concatenation it is the concatenation of
      the results, and filtering twice is filtering once. */
  lemma {:induction false} ByCreatorAppend(a: seq<Message>, b: seq<Message>, user: nat)
    ensures ByCreator(a + b, user) == ByCreator(a, user) + ByCreator(b, user)
    decreases |a|
  {
    if |a| == 0 {
      assert a + b == b;
    } else {
      assert (a + b)[0] == a[0] && (a + b)[1..] == a[1..] + b;
      ByCreatorAppend(a[1..], b, user);
    }
  }

  lemma {:induction false} ByCreatorIdempotent(ms: seq<Message>, user: nat)
    ensures ByCreator(ByCreator(ms, user), user) == ByCreator(ms, user)
    decreases |ms|
  {
    if |ms| > 0 {
      ByCreatorIdempotent(ms[1..], user);
      var h := if ms[0].creatorId == Some(user) then [ms[0]] else [];
      ByCreatorAppend(h, ByCreator(ms[1..], user), user);
    }
  }
}
