/** The alphabet of base64/base64.c: which characters stand for which digits. */
module Base64Alphabet {
  import opened Bytes
  import opened Base64Spec
  import opened Base64Theorems

  lemma Capitals(i: nat)
    requires i < 26
    ensures "ABCDEFGHIJKLMNOPQRSTUVWXYZ"[i] as nat == 65 + i
  {
  }

  lemma SmallLetters(i: nat)
    requires i < 26
    ensures "abcdefghijklmnopqrstuvwxyz"[i] as nat == 97 + i
  {
  }

  lemma Others(i: nat)
    requires i < 12
    ensures "0123456789+/"[i] as nat == if i < 10 then 48 + i else if i == 10 then 43 else 47
  {
  }

  lemma AlphabetAt(i: nat)
    requires i < 64
    ensures ("ABCDEFGHIJKLMNOPQRSTUVWXYZ" + "abcdefghijklmnopqrstuvwxyz" + "0123456789+/")[i] as nat
            == if i < 26 then 65 + i else if i < 52 then 71 + i else if i < 62 then i - 4 else if i == 62 then 43 else 47
  {
    var a, b, c := "ABCDEFGHIJKLMNOPQRSTUVWXYZ", "abcdefghijklmnopqrstuvwxyz", "0123456789+/";
    if i < 26 {
      Capitals(i);
    } else if i < 52 {
      SmallLetters(i - 26);
    } else {
      Others(i - 52);
    }
  }

  lemma LetterCode(v: Byte)
    requires v < 64
    ensures var i := v as nat;
            Letter(v) as nat
            == if i < 26 then 65 + i else if i < 52 then 71 + i else if i < 62 then i - 4 else if i == 62 then 43 else 47
  {
  }

  /** Position `v` of b64str. */
  lemma LetterAt(v: Byte)
    requires v < 64
    ensures Letter(v) as char
            == ("ABCDEFGHIJKLMNOPQRSTUVWXYZ" + "abcdefghijklmnopqrstuvwxyz" + "0123456789+/")[v as nat]
  {
    LetterCode(v);
    AlphabetAt(v as nat);
    SameCode(Letter(v) as char, ("ABCDEFGHIJKLMNOPQRSTUVWXYZ" + "abcdefghijklmnopqrstuvwxyz" + "0123456789+/")[v as nat]);
  }

  lemma SameCode(c: char, d: char)
    requires c as nat == d as nat
    ensures c == d
  {
  }

  /** Character `c` stands for digit `v`. */
  predicate Stands(c: Byte, v: nat)
  {
    v < 64 && c as char == ("ABCDEFGHIJKLMNOPQRSTUVWXYZ" + "abcdefghijklmnopqrstuvwxyz" + "0123456789+/")[v]
  }

  lemma LetterStands(v: Byte)
    requires v < 64
    ensures Stands(Letter(v), v as nat)
  {
    LetterAt(v);
  }

  lemma StandsCode(c: Byte, v: nat)
    requires Stands(c, v)
    ensures c as nat
            == if v < 26 then 65 + v else if v < 52 then 71 + v else if v < 62 then v - 4 else if v == 62 then 43 else 47
  {
    AlphabetAt(v);
    hide Stands;
    assert (c as char) as nat == c as nat;
  }

  lemma SextetCode(c: Byte)
    ensures var n := c as nat;
            Sextet(c) as nat == if 65 <= n <= 90 then n - 65 else if 97 <= n <= 122 then n - 71
                                else if 48 <= n <= 57 then n + 4 else if n == 43 then 62 else if n == 47 then 63 else 255
    ensures IsBase64(c) <==> Sextet(c) as nat < 64
  {
  }

  /** The table b64 finds exactly the characters of b64str, each at its position. */
  lemma SextetStands(c: Byte, v: nat)
    ensures Stands(c, v) <==> IsBase64(c) && v == Sextet(c) as nat
  {
    SextetCode(c);
    if Stands(c, v) {
      StandsCode(c, v);
    }
    hide Stands;
    if IsBase64(c) {
      LetterOfSextet(c);
      LetterStands(Sextet(c));
    }
  }
}
