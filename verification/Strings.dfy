/** Go's strings.TrimSpace. */
module Strings {

  /** unicode.IsSpace */
  predicate IsSpace(c: char) {
    var code := c as int;
    || 0x09 <= code <= 0x0D || code == 0x20 || code == 0x85 || code == 0xA0
    || code == 0x1680 || 0x2000 <= code <= 0x200A || code == 0x2028 || code == 0x2029
    || code == 0x202F || code == 0x205F || code == 0x3000
  }

  /** Neither end is white space. */
  predicate Trimmed(s: string) {
    s == "" || (!IsSpace(s[0]) && !IsSpace(s[|s| - 1]))
  }

  function Trim(s: string): string {
    if Trimmed(s) then s
    else if IsSpace(s[0]) then Trim(s[1..])
    else Trim(s[..|s| - 1])
  }

  /** Trimming removes white space from both ends, and leaves alone exactly the strings that have none there. */
  lemma TrimIsTrimmed(s: string)
    ensures Trimmed(Trim(s))
    ensures Trim(s) == s <==> Trimmed(s)
    ensures Trim(Trim(s)) == Trim(s)
  {
    var _, _ := TrimParts(s);
  }

  /** The result is the part of the string between the white space in front and the white space behind. */
  lemma {:induction false} TrimParts(s: string) returns (front: string, back: string)
    ensures s == front + Trim(s) + back && Trimmed(Trim(s))
    ensures forall c :: c in front || c in back ==> IsSpace(c)
  {
    if Trimmed(s) {
      front, back := "", "";
    } else if IsSpace(s[0]) {
      front, back := TrimParts(s[1..]);
      front := [s[0]] + front;
    } else {
      front, back := TrimParts(s[..|s| - 1]);
      back := back + [s[|s| - 1]];
    }
  }
}
