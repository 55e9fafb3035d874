/**
 * Boolean query flags (src/main/routes/utils/parse-query.ts).
 *
 * A parsed query string is its name/value pairs in order; a name written
 * without "=" carries the empty value.
 */
module ParseQuery {
  import opened Wrappers

  type Query = seq<(string, string)>

  /** `URLSearchParams.get`: the value of the first pair named `key`. */
  function Get(query: Query, key: string): (r: Option<string>)
    ensures r.None? <==> forall i :: 0 <= i < |query| ==> query[i].0 != key
    ensures r.Some? ==> exists i :: 0 <= i < |query| && query[i] == (key, r.value) &&
                                    forall j :: 0 <= j < i ==> query[j].0 != key
    decreases |query|
  {
    if query == [] then None
    else if query[0].0 == key then Some(query[0].1)
    else
      var r := Get(query[1..], key);
      assert r.Some? ==> exists i :: 0 <= i < |query[1..]| && query[1..][i] == (key, r.value) &&
                                     forall j :: 0 <= j < i ==> query[1..][j].0 != key;
      if r.Some? then
        var i :| 0 <= i < |query[1..]| && query[1..][i] == (key, r.value) &&
                 forall j :: 0 <= j < i ==> query[1..][j].0 != key;
        assert query[i + 1] == (key, r.value);
        r
      else r
  }

  /** Lower-casing of one character; only ASCII letters change. */
  function ToLowerChar(c: char): char {
    if 'A' <= c <= 'Z' then (c as int - 'A' as int + 'a' as int) as char else c
  }

  function ToUpperChar(c: char): char {
    if 'a' <= c <= 'z' then (c as int - 'a' as int + 'A' as int) as char else c
  }

  /** `String.prototype.toLowerCase`, character by character. */
  function ToLower(s: string): (r: string)
    ensures |r| == |s| && forall i :: 0 <= i < |s| ==> r[i] == ToLowerChar(s[i])
  {
    seq(|s|, i requires 0 <= i < |s| => ToLowerChar(s[i]))
  }

  /** The lower-cased values that read as false. */
  predicate IsFalseWord(lower: string) {
    lower == "false" || lower == "f" || lower == "0"
  }

  /**
   * Case-insensitive equality with a word written in lower case: each
   * character is the word's character or its upper-case form.
   */
  predicate EqualsIgnoringCase(s: string, word: string) {
    |s| == |word| && forall i :: 0 <= i < |s| ==> s[i] == word[i] || s[i] == ToUpperChar(word[i])
  }

  /** A value spells "false", "f" or "0" in some mixture of letter cases. */
  predicate SpellsFalse(v: string) {
    EqualsIgnoringCase(v, "false") || EqualsIgnoringCase(v, "f") || EqualsIgnoringCase(v, "0")
  }

  lemma LowerIsFalseWord(v: string)
    ensures IsFalseWord(ToLower(v)) <==> SpellsFalse(v)
  {
    var lower := ToLower(v);
    forall word | word in ["false", "f", "0"]
      ensures lower == word <==> EqualsIgnoringCase(v, word)
    {
      if EqualsIgnoringCase(v, word) {
        assert forall i :: 0 <= i < |v| ==> lower[i] == word[i];
      }
      if lower == word {
        assert forall i :: 0 <= i < |v| ==> v[i] == word[i] || v[i] == ToUpperChar(word[i]);
      }
    }
  }

  /**
   * getBoolean: false when the key is absent or its first value spells
   * "false", "f" or "0" in any letter case; true otherwise, including for the
   * empty value.
   */
  function GetBoolean(query: Query, key: string): (r: bool)
    ensures Get(query, key).None? ==> !r
    ensures Get(query, key).Some? ==> (r <==> !SpellsFalse(Get(query, key).value))
    ensures Get(query, key) == Some("") ==> r
  {
    match Get(query, key)
    case None => false
    case Some(value) =>
      LowerIsFalseWord(value);
      !IsFalseWord(ToLower(value))
  }

  /** Only the first value given for a key is consulted. */
  lemma {:induction false} FirstValueDecides(query: Query, rest: Query, key: string)
    requires exists i :: 0 <= i < |query| && query[i].0 == key
    ensures GetBoolean(query + rest, key) == GetBoolean(query, key)
    decreases |query|
  {
    assert (query + rest)[0] == query[0];
    if query[0].0 != key {
      assert (query + rest)[1..] == query[1..] + rest;
      var i :| 0 <= i < |query| && query[i].0 == key;
      assert query[1..][i - 1].0 == key;
      FirstValueDecides(query[1..], rest, key);
    }
  }

  /** Two queries whose values for `key` agree up to letter case agree on the flag. */
  lemma CaseInsensitive(q1: Query, q2: Query, key: string)
    requires Get(q1, key).Some? && Get(q2, key).Some?
    requires ToLower(Get(q1, key).value) == ToLower(Get(q2, key).value)
    ensures GetBoolean(q1, key) == GetBoolean(q2, key)
  {
    LowerIsFalseWord(Get(q1, key).value);
    LowerIsFalseWord(Get(q2, key).value);
  }
}
