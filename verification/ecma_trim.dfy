/** The whitespace trimming of ECMAScript's `String.prototype.trim` (ECMA-262), which strips
    every leading and trailing code point of the WhiteSpace and LineTerminator productions. */
module EcmaTrim {

  /** WhiteSpace (TAB, VT, FF, SP, NBSP, ZWNBSP and the Unicode "Zs" space separators)
      and LineTerminator (LF, CR, LS, PS) of ECMA-262. */
  predicate IsWhiteSpace(c: char) {
    || c == '\t' || c == '\U{000B}' || c == '\U{000C}' || c == ' '
    || c == '\U{00A0}' || c == '\U{FEFF}'
    || c == '\U{1680}' || ('\U{2000}' <= c <= '\U{200A}')
    || c == '\U{202F}' || c == '\U{205F}' || c == '\U{3000}'
    || c == '\n' || c == '\r' || c == '\U{2028}' || c == '\U{2029}'
  }

  predicate AllWhiteSpace(s: string) {
    forall k :: 0 <= k < |s| ==> IsWhiteSpace(s[k])
  }

  /** A string that `trim` leaves as it is: empty, or starting and ending with a
      character that is not whitespace. */
  predicate NoEdgeWhiteSpace(s: string) {
    s == [] || (!IsWhiteSpace(s[0]) && !IsWhiteSpace(s[|s| - 1]))
  }

  /** Index of the first character at or after `i` that is not whitespace (or `|s|`). */
  function StartIndex(s: string, i: nat): (a: nat)
    requires i <= |s|
    ensures i <= a <= |s|
    ensures forall k :: i <= k < a ==> IsWhiteSpace(s[k])
    ensures a == |s| || !IsWhiteSpace(s[a])
    decreases |s| - i
  {
    if i < |s| && IsWhiteSpace(s[i]) then StartIndex(s, i + 1) else i
  }

  /** One past the index of the last character before `j` that is not whitespace,
      not going below `a`. */
  function EndIndex(s: string, a: nat, j: nat): (b: nat)
    requires a <= j <= |s|
    ensures a <= b <= j
    ensures forall k :: b <= k < j ==> IsWhiteSpace(s[k])
    ensures b == a || !IsWhiteSpace(s[b - 1])
    decreases j
  {
    if a < j && IsWhiteSpace(s[j - 1]) then EndIndex(s, a, j - 1) else j
  }

  /** `String.prototype.trim`: the middle slice of `s` left once the whitespace on both
      sides is cut away. It is empty exactly when `s` is all whitespace. */
  function Trim(s: string): (r: string)
    ensures exists i, j :: 0 <= i <= j <= |s| && r == s[i..j]
                           && AllWhiteSpace(s[..i]) && AllWhiteSpace(s[j..])
    ensures NoEdgeWhiteSpace(r)
    ensures r == [] <==> AllWhiteSpace(s)
  {
    var a := StartIndex(s, 0);
    var b := EndIndex(s, a, |s|);
    assert AllWhiteSpace(s[..a]) by {
      forall k | 0 <= k < a ensures IsWhiteSpace(s[..a][k]) {
        assert s[..a][k] == s[k];
      }
    }
    assert AllWhiteSpace(s[b..]) by {
      forall k | 0 <= k < |s| - b ensures IsWhiteSpace(s[b..][k]) {
        assert s[b..][k] == s[b + k];
      }
    }
    assert a < b ==> !IsWhiteSpace(s[a]);
    s[a..b]
  }

  /** `StartIndex` is determined by where the whitespace run starting at `i` ends. */
  lemma StartIndexAt(s: string, i: nat, m: nat)
    requires i <= m <= |s|
    requires forall k :: i <= k < m ==> IsWhiteSpace(s[k])
    requires m == |s| || !IsWhiteSpace(s[m])
    ensures StartIndex(s, i) == m
  {
  }

  /** `EndIndex` is determined by where the whitespace run ending at `j` starts. */
  lemma EndIndexAt(s: string, a: nat, j: nat, m: nat)
    requires a <= m <= j <= |s|
    requires forall k :: m <= k < j ==> IsWhiteSpace(s[k])
    requires m == a || !IsWhiteSpace(s[m - 1])
    ensures EndIndex(s, a, j) == m
  {
  }

  /** The converse of `Trim`'s contract: padding an already-trimmed string with
      whitespace on either side and trimming gives that string back. */
  lemma TrimPadded(p: string, t: string, q: string)
    requires AllWhiteSpace(p) && AllWhiteSpace(q) && NoEdgeWhiteSpace(t)
    ensures Trim(p + t + q) == t
  {
    var s := p + t + q;
    var m := |p| + |t|;
    forall k | 0 <= k < |p| ensures IsWhiteSpace(s[k]) {
      assert s[k] == p[k];
    }
    forall k | m <= k < |s| ensures IsWhiteSpace(s[k]) {
      assert s[k] == q[k - m];
    }
    if t == [] {
      StartIndexAt(s, 0, |s|);
      EndIndexAt(s, |s|, |s|, |s|);
    } else {
      assert s[|p|] == t[0] && s[m - 1] == t[|t| - 1];
      StartIndexAt(s, 0, |p|);
      EndIndexAt(s, |p|, |s|, m);
      assert s[|p|..m] == t;
    }
  }

  /** Trimming twice is trimming once. */
  lemma TrimIdempotent(s: string)
    ensures Trim(Trim(s)) == Trim(s)
  {
    var t := Trim(s);
    assert [] + t + [] == t;
    TrimPadded([], t, []);
  }
}
