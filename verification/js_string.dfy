/**
 * The string operation the row parser applies to every field it normalises:
 * `text.replace(/ / g, '')`, which removes every U+0020 SPACE character and
 * keeps every other character (tabs and no-break spaces included).
 */
module JsString {

  /** `s.replace(/ /g, '')`: `s` with every space removed. */
  function StripSpaces(s: string): (r: string)
    ensures ' ' !in r
    ensures |r| <= |s|
  {
    if s == [] then []
    else if s[0] == ' ' then StripSpaces(s[1..])
    else [s[0]] + StripSpaces(s[1..])
  }

  /** Every character but the space keeps its number of occurrences; no space is left. */
  lemma {:induction false} StripSpacesCounts(s: string)
    ensures forall c :: multiset(StripSpaces(s))[c] == if c == ' ' then 0 else multiset(s)[c]
  {
    if s != [] {
      assert s == [s[0]] + s[1..];
      StripSpacesCounts(s[1..]);
    }
  }

  /** Stripping works character by character: the result keeps the order of the input. */
  lemma {:induction false} StripSpacesAppend(a: string, b: string)
    ensures StripSpaces(a + b) == StripSpaces(a) + StripSpaces(b)
  {
    if a == [] {
      assert a + b == b;
    } else {
      assert (a + b)[1..] == a[1..] + b;
      StripSpacesAppend(a[1..], b);
    }
  }

  /** A single character is dropped exactly when it is a space. */
  lemma StripSpacesChar(c: char)
    ensures StripSpaces([c]) == if c == ' ' then [] else [c]
  {
  }

  /** A text without spaces is left as it is. */
  lemma {:induction false} StripSpacesNoSpace(s: string)
    requires ' ' !in s
    ensures StripSpaces(s) == s
  {
    if s != [] {
      assert s[0] != ' ';
      assert ' ' !in s[1..] by {
        forall p | 0 <= p < |s| - 1 ensures s[1..][p] != ' ' {
          assert s[1..][p] == s[p + 1];
        }
      }
      StripSpacesNoSpace(s[1..]);
      assert [s[0]] + s[1..] == s;
    }
  }

  /** Normalising twice gives the same text as normalising once. */
  lemma StripSpacesIdempotent(s: string)
    ensures StripSpaces(StripSpaces(s)) == StripSpaces(s)
  {
    StripSpacesNoSpace(StripSpaces(s));
  }
}
