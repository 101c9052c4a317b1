/** The Vigenère transforms `cipher` and `decipher` with their key stream. */
module Vigenere {
  import opened Options
  import opened Letters
  import opened Arithmetic

  /** `s.lower()`, one character at a time. */
  function LowerString(s: string): (r: string)
    ensures |r| == |s|
  {
    seq(|s|, i requires 0 <= i < |s| => Lower(s[i]))
  }

  /** `s * t`: the string s written t times in a row. */
  function Repeat(s: string, t: nat): string
  {
    if t == 0 then [] else s + Repeat(s, t - 1)
  }

  lemma {:induction false} RepeatIndex(s: string, t: nat)
    requires |s| > 0
    ensures |Repeat(s, t)| == |s| * t
    ensures forall i :: 0 <= i < |s| * t ==> Repeat(s, t)[i] == s[i % |s|]
  {
    if t > 0 {
      var rest := Repeat(s, t - 1);
      RepeatIndex(s, t - 1);
      var r := Repeat(s, t);
      assert r == s + rest;
      assert |s| * t == |s| * (t - 1) + |s|;
      forall i | 0 <= i < |s| * t
        ensures r[i] == s[i % |s|]
      {
        if i >= |s| {
          var j := i - |s|;
          assert j < |s| * (t - 1);
          assert r[i] == rest[j];
          ModAddDivisor(j, |s|);
        } else {
          DivModUnique(i, |s|, 0, i);
        }
      }
    }
  }

  /**
   * The key stream for a message of n characters: the lower-cased key repeated
   * n / |key| + 1 times and cut to n characters. Position i uses key character i mod |key|,
   * whatever the message holds there.
   */
  function KeyStream(key: string, n: nat): (ks: string)
    requires |key| > 0
    ensures |ks| == n
    ensures forall i :: 0 <= i < n ==> ks[i] == Lower(key[i % |key|])
  {
    var lowered := LowerString(key);
    var copies := n / |key| + 1;
    RepeatIndex(lowered, copies);
    assert n < |key| * copies by {
      assert n == |key| * (n / |key|) + n % |key|;
    }
    Repeat(lowered, copies)[..n]
  }

  /** Alphabet position of a character: 0 for 'a', 25 for 'z'. */
  function Offset(c: char): int { c as int - 'a' as int }

  /** The letter at alphabet position x mod 26. */
  function LetterAt(x: int): (c: char)
    ensures IsAsciiLower(c) && Offset(c) == x % 26
  {
    (x % 26 + 'a' as int) as char
  }

  /**
   * One plaintext character under key-stream character k: the remapped letter shifted
   * forward by k, or the original character when it does not remap to a..z.
   */
  function CipherAt(m: char, k: char): (e: char)
    ensures !IsAsciiLower(RemapLetter(m)) ==> e == m
    ensures IsAsciiLower(RemapLetter(m)) ==>
      IsAsciiLower(e) && Offset(e) == (Offset(RemapLetter(m)) + Offset(k)) % 26
  {
    var plain := RemapLetter(m);
    if !IsAsciiLower(plain) then m
    else LetterAt(plain as int + k as int - 2 * 'a' as int)
  }

  /**
   * One ciphertext character under key-stream character k. A letter a..z is shifted back
   * by k with one correction of +26; chr() fails (None) when the code is still negative,
   * which only a key-stream character above U+00DC can cause. Other characters are kept.
   */
  function DecipherAt(c: char, k: char): (d: Option<char>)
    ensures !IsAsciiLower(c) ==> d == Some(c)
    ensures IsAsciiLower(c) && IsAsciiLower(k) ==>
      d.Some? && IsAsciiLower(d.value) && Offset(d.value) == (Offset(c) - Offset(k)) % 26
    ensures IsAsciiLower(c) && d.None? ==> k as int > 0xDC
  {
    if !IsAsciiLower(c) then Some(c)
    else
      var shifted := c as int - k as int;
      var corrected := if shifted < 0 then shifted + 26 else shifted;
      if corrected + 'a' as int < 0 then None
      else Some((corrected + 'a' as int) as char)
  }

  /** What `cipher(key, message)` returns. */
  function Ciphered(key: string, message: string): (r: string)
    requires |key| > 0
    ensures |r| == |message|
  {
    var ks := KeyStream(key, |message|);
    seq(|message|, i requires 0 <= i < |message| => CipherAt(message[i], ks[i]))
  }

  /** What `decipher(key, text)` returns; None when it would raise in chr(). */
  function Deciphered(key: string, text: string): (r: Option<string>)
    requires |key| > 0
    ensures r.Some? ==> |r.value| == |text|
  {
    var ks := KeyStream(key, |text|);
    if forall i :: 0 <= i < |text| ==> DecipherAt(text[i], ks[i]).Some? then
      Some(seq(|text|, i requires 0 <= i < |text| => DecipherAt(text[i], ks[i]).value))
    else None
  }

  /** The Vigenère encryption loop, appending one character per position. */
  method Cipher(key: string, message: string) returns (encrypted: string)
    requires |key| > 0
    ensures encrypted == Ciphered(key, message)
    ensures |encrypted| == |message|
    ensures forall i :: 0 <= i < |message| && !IsAsciiLower(RemapLetter(message[i])) ==>
      encrypted[i] == message[i]
    ensures forall i :: 0 <= i < |message| && IsAsciiLower(RemapLetter(message[i])) ==>
      IsAsciiLower(encrypted[i]) &&
      Offset(encrypted[i]) == (Offset(RemapLetter(message[i])) + Offset(Lower(key[i % |key|]))) % 26
  {
    var keyStream := KeyStream(key, |message|);
    encrypted := "";
    for i := 0 to |message|
      invariant |encrypted| == i
      invariant forall j :: 0 <= j < i ==> encrypted[j] == CipherAt(message[j], keyStream[j])
    {
      var plain := RemapLetter(message[i]);
      if !IsAsciiLower(plain) {
        encrypted := encrypted + [message[i]];
        continue;
      }
      var code := -2 * 'a' as int;
      code := code + plain as int + keyStream[i] as int;
      encrypted := encrypted + [(code % 26 + 'a' as int) as char];
    }
  }

  /** The Vigenère decryption loop; None stands for the ValueError that chr() raises. */
  method Decipher(key: string, encryptedMessage: string) returns (decrypted: Option<string>)
    requires |key| > 0
    ensures decrypted == Deciphered(key, encryptedMessage)
    ensures decrypted.Some? ==> forall i :: 0 <= i < |encryptedMessage| && !IsAsciiLower(encryptedMessage[i]) ==>
      decrypted.value[i] == encryptedMessage[i]
    ensures IsLetterKey(key) ==> decrypted.Some? && forall i :: 0 <= i < |encryptedMessage| && IsAsciiLower(encryptedMessage[i]) ==>
      IsAsciiLower(decrypted.value[i]) &&
      Offset(decrypted.value[i]) == (Offset(encryptedMessage[i]) - Offset(Lower(key[i % |key|]))) % 26
  {
    var keyStream := KeyStream(key, |encryptedMessage|);
    var text := "";
    for i := 0 to |encryptedMessage|
      invariant |text| == i
      invariant forall j :: 0 <= j < i ==>
        DecipherAt(encryptedMessage[j], keyStream[j]).Some? &&
        text[j] == DecipherAt(encryptedMessage[j], keyStream[j]).value
    {
      var c := encryptedMessage[i];
      if !IsAsciiLower(c) {
        text := text + [c];
        continue;
      }
      var letter := c as int - keyStream[i] as int;
      if letter < 0 {
        letter := letter + 26;
      }
      if letter + 'a' as int < 0 {
        assert DecipherAt(c, keyStream[i]).None?;
        return None;
      }
      text := text + [(letter + 'a' as int) as char];
    }
    decrypted := Some(text);
    assert text == Deciphered(key, encryptedMessage).value;
  }

  /** A key whose every character lower-cases to a letter a..z. */
  predicate IsLetterKey(key: string) {
    |key| > 0 && forall k :: 0 <= k < |key| ==> IsAsciiLower(Lower(key[k]))
  }

  /** What a message character reads as after a round trip: its remapped letter, or itself. */
  function Normalized(m: char): char {
    var plain := RemapLetter(m);
    if IsAsciiLower(plain) then plain else m
  }

  /** With a key letter a..z, deciphering a ciphered character gives back its normal form. */
  lemma CharRoundTrip(m: char, k: char)
    requires IsAsciiLower(k)
    ensures DecipherAt(CipherAt(m, k), k) == Some(Normalized(m))
  {
    var plain := RemapLetter(m);
    if IsAsciiLower(plain) {
      var e := CipherAt(m, k);
      assert e as int == 'a' as int + (Offset(plain) + Offset(k)) % 26;
      if Offset(plain) + Offset(k) >= 26 {
        assert e as int == plain as int + k as int - 'a' as int - 26;
      }
    }
  }

  /** With a letter key, decipher undoes cipher up to the letter normalisation. */
  lemma {:induction false} RoundTrip(key: string, message: string)
    requires IsLetterKey(key)
    ensures Deciphered(key, Ciphered(key, message))
      == Some(seq(|message|, i requires 0 <= i < |message| => Normalized(message[i])))
  {
    var e := Ciphered(key, message);
    var ks := KeyStream(key, |message|);
    forall i | 0 <= i < |message|
      ensures DecipherAt(e[i], ks[i]) == Some(Normalized(message[i]))
    {
      CharRoundTrip(message[i], ks[i]);
    }
    assert KeyStream(key, |e|) == ks;
    var d := seq(|e|, i requires 0 <= i < |e| => DecipherAt(e[i], ks[i]).value);
    assert d == seq(|message|, i requires 0 <= i < |message| => Normalized(message[i]));
  }

  /** Messages made only of letters a..z and characters that do not remap to a letter come back unchanged. */
  lemma RoundTripIdentity(key: string, message: string)
    requires IsLetterKey(key)
    requires forall i :: 0 <= i < |message| ==> IsAsciiLower(message[i]) || !IsAsciiLower(RemapLetter(message[i]))
    ensures Deciphered(key, Ciphered(key, message)) == Some(message)
  {
    RoundTrip(key, message);
    assert seq(|message|, i requires 0 <= i < |message| => Normalized(message[i])) == message;
  }

  /** The same plaintext character one key length apart is ciphered to the same character. */
  lemma KeyStreamPeriodic(key: string, message: string, i: nat)
    requires |key| > 0 && i + |key| < |message|
    requires message[i] == message[i + |key|]
    ensures Ciphered(key, message)[i] == Ciphered(key, message)[i + |key|]
  {
    ModAddDivisor(i, |key|);
  }

  /** The textbook example: key "lemon" turns "attackatdawn" into "lxfopvefrnhr" and back. */
  lemma LemonExample()
    ensures Ciphered("lemon", "attackatdawn") == "lxfopvefrnhr"
    ensures Deciphered("lemon", "lxfopvefrnhr") == Some("attackatdawn")
  {
    RoundTripIdentity("lemon", "attackatdawn");
  }

  /** Spaces keep their positions 3, 9 and 15 in "the quick brown fox". */
  lemma SpacesKeptExample(key: string)
    requires |key| > 0
    ensures var e := Ciphered(key, "the quick brown fox");
      e[3] == ' ' && e[9] == ' ' && e[15] == ' '
  {
  }
}
