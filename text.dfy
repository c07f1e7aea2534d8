/** Character filters on identifiers: the view-name sanitiser of
    recommendation_system.py (`c.isalnum() or c == '_'`) and the column-name
    cleaning of run_data_import.py (`re.sub(r'[^A-Za-z0-9_]+', '', col)`). */
module Text {
  import opened Sequences

  /** A letter, digit or underscore of ASCII. */
  predicate IsWordChar(c: char) {
    ('A' <= c <= 'Z') || ('a' <= c <= 'z') || ('0' <= c <= '9') || c == '_'
  }

  predicate AllWordChars(s: string) {
    forall k :: 0 <= k < |s| ==> IsWordChar(s[k])
  }

  /** Deletes every character that is not a letter, digit or underscore. */
  function KeepWordChars(s: string): (r: string)
    ensures AllWordChars(r)
    ensures IsSubsequence(r, s)
    ensures forall c :: IsWordChar(c) ==> multiset(r)[c] == multiset(s)[c]
    decreases |s|
  {
    if s == [] then []
    else
      var rest := KeepWordChars(s[1..]);
      assert s == [s[0]] + s[1..];
      if IsWordChar(s[0]) then [s[0]] + rest else rest
  }

  /** A name made of word characters only is left as it is. */
  lemma {:induction false} KeepWordCharsFixes(s: string)
    requires AllWordChars(s)
    ensures KeepWordChars(s) == s
    decreases |s|
  {
    if s != [] {
      assert AllWordChars(s[1..]) by {
        forall k | 0 <= k < |s[1..]| ensures IsWordChar(s[1..][k]) {
          assert s[1..][k] == s[k + 1];
        }
      }
      KeepWordCharsFixes(s[1..]);
    }
  }

  /** Sanitising twice is sanitising once. */
  lemma KeepWordCharsIdempotent(s: string)
    ensures KeepWordChars(KeepWordChars(s)) == KeepWordChars(s)
  {
    KeepWordCharsFixes(KeepWordChars(s));
  }

  /** `df.columns = [re.sub(...) for col in df.columns]`. */
  function CleanColumnNames(columns: seq<string>): (r: seq<string>)
    ensures |r| == |columns|
    ensures forall i :: 0 <= i < |r| ==> AllWordChars(r[i]) && IsSubsequence(r[i], columns[i])
    ensures forall i :: 0 <= i < |r| ==>
      forall c :: IsWordChar(c) ==> multiset(r[i])[c] == multiset(columns[i])[c]
  {
    seq(|columns|, i requires 0 <= i < |columns| => KeepWordChars(columns[i]))
  }

  /** Cleaning the column names again changes nothing. */
  lemma CleanColumnNamesIdempotent(columns: seq<string>)
    ensures CleanColumnNames(CleanColumnNames(columns)) == CleanColumnNames(columns)
  {
    var once := CleanColumnNames(columns);
    forall i | 0 <= i < |once| ensures KeepWordChars(once[i]) == once[i] {
      KeepWordCharsFixes(once[i]);
    }
  }
}
