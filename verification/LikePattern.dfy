/** The LIKE operator. */
module LikePattern {

  // % matches any text, _ any character, and any other character itself.
  predicate Like(text: string, pattern: string)
    decreases |text| + |pattern|
  {
    if pattern == "" then text == ""
    else if pattern[0] == '%' then Like(text, pattern[1..]) || (text != "" && Like(text[1..], pattern))
    else text != "" && (pattern[0] == '_' || pattern[0] == text[0]) && Like(text[1..], pattern[1..])
  }

  ghost predicate LikeFrom(text: string, i: nat, pattern: string) {
    i <= |text| && Like(text[i..], pattern)
  }

  lemma {:induction false} LikeAnything(text: string, rest: string)
    ensures Like(text, "%" + rest) <==> exists i: nat :: LikeFrom(text, i, rest)
    decreases |text|
  {
    assert ("%" + rest)[1..] == rest;
    if Like(text, rest) {
      assert text[0..] == text;
      assert LikeFrom(text, 0, rest);
    }
    if text != "" {
      LikeAnything(text[1..], rest);
      if i: nat :| LikeFrom(text[1..], i, rest) {
        assert text[1..][i..] == text[i + 1..];
        assert LikeFrom(text, i + 1, rest);
      }
      if i: nat :| LikeFrom(text, i, rest) {
        if i == 0 {
          assert text[0..] == text;
        } else {
          assert text[1..][i - 1..] == text[i..];
          assert LikeFrom(text[1..], i - 1, rest);
        }
      }
    } else {
      if i: nat :| LikeFrom(text, i, rest) {
        assert text[i..] == text;
      }
    }
  }

  predicate IsWord(word: string) {
    '%' !in word && '_' !in word
  }

  lemma {:induction false} LikeWord(text: string, word: string, rest: string)
    requires IsWord(word)
    ensures Like(text, word + rest) <==> word <= text && Like(text[|word|..], rest)
    decreases |word|
  {
    if word == "" {
      assert word + rest == rest && text[0..] == text;
    } else {
      assert (word + rest)[1..] == word[1..] + rest && (word + rest)[0] == word[0];
      assert word[0] in word;
      if text != "" {
        LikeWord(text[1..], word[1..], rest);
        assert word == [word[0]] + word[1..] && text == [text[0]] + text[1..];
        assert word <= text <==> word[0] == text[0] && word[1..] <= text[1..];
        assert word <= text ==> text[1..][|word| - 1..] == text[|word|..];
      }
    }
  }

  predicate WordAt(text: string, i: int, word: string) {
    0 <= i && i + |word| <= |text| && text[i..i + |word|] == word
  }

  lemma LikeWordFrom(text: string, i: nat, word: string, rest: string)
    requires IsWord(word)
    ensures LikeFrom(text, i, word + rest) <==> WordAt(text, i, word) && LikeFrom(text, i + |word|, rest)
  {
    if i <= |text| {
      LikeWord(text[i..], word, rest);
      if i + |word| <= |text| {
        assert text[i..][..|word|] == text[i..i + |word|];
        assert text[i..][|word|..] == text[i + |word|..];
      }
    }
  }

  // first, and later second, without overlap
  ghost predicate InOrder(text: string, first: string, second: string) {
    exists i: nat, j: nat :: i + |first| <= j && WordAt(text, i, first) && WordAt(text, j, second)
  }

  lemma LikeAnythingFrom(text: string, i: nat, rest: string)
    requires i <= |text|
    ensures LikeFrom(text, i, "%" + rest) <==> exists j: nat :: i <= j && LikeFrom(text, j, rest)
  {
    LikeAnything(text[i..], rest);
    if k: nat :| LikeFrom(text[i..], k, rest) {
      assert text[i..][k..] == text[i + k..];
      assert LikeFrom(text, i + k, rest);
    }
    if j: nat :| i <= j && LikeFrom(text, j, rest) {
      assert text[i..][j - i..] == text[j..];
      assert LikeFrom(text[i..], j - i, rest);
    }
  }

  lemma LikeTail(text: string, j: nat, word: string)
    requires IsWord(word)
    ensures LikeFrom(text, j, word + "%") <==> WordAt(text, j, word)
  {
    LikeWordFrom(text, j, word, "%");
    if j + |word| <= |text| {
      assert "%" == "%" + "";
      LikeAnythingFrom(text, j + |word|, "");
      assert text[|text|..] == "";
      assert LikeFrom(text, |text|, "");
    }
  }

  /** A pattern of two words between percent signs matches exactly the texts with both words in order. */
  lemma LikeTwoWords(text: string, first: string, second: string)
    requires IsWord(first) && IsWord(second)
    ensures Like(text, "%" + (first + ("%" + (second + "%")))) <==> InOrder(text, first, second)
  {
    LikeAnything(text, first + ("%" + (second + "%")));
    forall i: nat
      ensures LikeFrom(text, i, first + ("%" + (second + "%"))) <==> WordAt(text, i, first) && LikeFrom(text,
              i + |first|, "%" + (second + "%"))
    {
      LikeWordFrom(text, i, first, "%" + (second + "%"));
    }
    forall i: nat | i <= |text|
      ensures LikeFrom(text, i, "%" + (second + "%")) <==> exists j: nat :: i <= j && LikeFrom(text, j, second + "%")
    {
      LikeAnythingFrom(text, i, second + "%");
    }
    forall j: nat
      ensures LikeFrom(text, j, second + "%") <==> WordAt(text, j, second)
    {
      LikeTail(text, j, second);
    }
  }
}
