/** `authorColor`: the console colour a history line is printed in, chosen
    from the message's author. */
module Colors {

  /** The `ConsoleColor` values `authorColor` can return. */
  datatype ConsoleColor = Green | Red | Yellow

  /** `char.ToLowerInvariant`, restricted to ASCII letters. */
  function LowerChar(c: char): char {
    if 'A' <= c <= 'Z' then (c as int + 32) as char else c
  }

  function UpperChar(c: char): char {
    if 'a' <= c <= 'z' then (c as int - 32) as char else c
  }

  /** `string.ToLowerInvariant`, character by character. */
  function ToLowerInvariant(s: string): string
    decreases |s|
  {
    if s == [] then [] else [LowerChar(s[0])] + ToLowerInvariant(s[1..])
  }

  function ToUpperInvariant(s: string): string
    decreases |s|
  {
    if s == [] then [] else [UpperChar(s[0])] + ToUpperInvariant(s[1..])
  }

  /** Two strings that differ at most in letter case. */
  predicate EqualsIgnoringCase(a: string, b: string) {
    |a| == |b| && forall i :: 0 <= i < |a| ==> LowerChar(a[i]) == LowerChar(b[i])
  }

  lemma {:induction false} LowerAgreesPointwise(a: string, b: string)
    ensures ToLowerInvariant(a) == ToLowerInvariant(b) <==> EqualsIgnoringCase(a, b)
    decreases |a|
  {
    if a != [] && b != [] {
      LowerAgreesPointwise(a[1..], b[1..]);
      if EqualsIgnoringCase(a, b) {
        assert EqualsIgnoringCase(a[1..], b[1..]) by {
          forall i | 0 <= i < |a| - 1 ensures LowerChar(a[1..][i]) == LowerChar(b[1..][i]) {
            assert a[1..][i] == a[i + 1] && b[1..][i] == b[i + 1];
          }
        }
      }
      if ToLowerInvariant(a) == ToLowerInvariant(b) {
        assert ToLowerInvariant(a)[0] == LowerChar(a[0]);
        assert ToLowerInvariant(a)[1..] == ToLowerInvariant(a[1..]);
        assert ToLowerInvariant(b)[1..] == ToLowerInvariant(b[1..]);
        forall i | 0 <= i < |a| ensures LowerChar(a[i]) == LowerChar(b[i]) {
          if i > 0 {
            assert a[1..][i - 1] == a[i] && b[1..][i - 1] == b[i];
          }
        }
      }
    } else if a != [] {
      assert ToLowerInvariant(a) != [];
    } else if b != [] {
      assert ToLowerInvariant(b) != [];
    }
  }

  /** `authorColor`: `alexey` in any letter case is green, `system` in any
      letter case is red, every other author is yellow. */
  function AuthorColor(author: string): (color: ConsoleColor)
    ensures color == Green <==> EqualsIgnoringCase(author, "alexey")
    ensures color == Red <==> EqualsIgnoringCase(author, "system")
    ensures color == Yellow <==>
              !EqualsIgnoringCase(author, "alexey") && !EqualsIgnoringCase(author, "system")
  {
    LowerAgreesPointwise(author, "alexey");
    LowerAgreesPointwise(author, "system");
    assert ToLowerInvariant("alexey") == "alexey";
    assert ToLowerInvariant("system") == "system";
    var key := ToLowerInvariant(author);
    if key == "alexey" then Green
    else if key == "system" then Red
    else Yellow
  }

  lemma {:induction false} LowerOfUpper(s: string)
    ensures ToLowerInvariant(ToUpperInvariant(s)) == ToLowerInvariant(s)
    decreases |s|
  {
    if s != [] {
      var u := ToUpperInvariant(s);
      assert u[0] == UpperChar(s[0]) && u[1..] == ToUpperInvariant(s[1..]);
      LowerOfUpper(s[1..]);
    }
  }

  /** Shouting an author's name does not change its colour. */
  lemma ColorIgnoresCase(author: string)
    ensures AuthorColor(ToUpperInvariant(author)) == AuthorColor(author)
  {
    LowerOfUpper(author);
  }
}
