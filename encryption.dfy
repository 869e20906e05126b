/** The repeating-key XOR cipher and the header extraction of
    M5.Encryption.cpp. A std::string is a sequence of bytes. */
module Encryption {

  datatype Option<T> = None | Some(value: T)

  const NewLine: bv8 := 10

  /** The cipher as a stream: byte j of `source` is combined with key byte
      (offset + j) mod |key|. The whole transform is XorStream(source, key, 0). */
  function XorStream(source: seq<bv8>, key: seq<bv8>, offset: nat): (r: seq<bv8>)
    requires |key| > 0
    ensures |r| == |source|
    decreases |source|
  {
    if source == [] then []
    else [source[0] ^ key[offset % |key|]] + XorStream(source[1..], key, offset + 1)
  }

  /** Byte j of the stream is byte j of the source XOR its key byte. */
  lemma {:induction false} XorStreamAt(source: seq<bv8>, key: seq<bv8>, offset: nat, j: nat)
    requires |key| > 0 && j < |source|
    ensures XorStream(source, key, offset)[j] == source[j] ^ key[(offset + j) % |key|]
    decreases j
  {
    if j > 0 {
      XorStreamAt(source[1..], key, offset + 1, j - 1);
    }
  }

  /** Applying the cipher twice with the same key and offset restores the input. */
  lemma {:induction false} XorStreamInvolution(source: seq<bv8>, key: seq<bv8>, offset: nat)
    requires |key| > 0
    ensures XorStream(XorStream(source, key, offset), key, offset) == source
    decreases |source|
  {
    if source != [] {
      var once := XorStream(source, key, offset);
      assert once[1..] == XorStream(source[1..], key, offset + 1);
      XorStreamInvolution(source[1..], key, offset + 1);
    }
  }

  /** encrypt_decrypt: copies the source and overwrites byte i with
      source[i] ^ key[i % |key|]. Both inputs must be non-empty. */
  method EncryptDecrypt(source: seq<bv8>, key: seq<bv8>) returns (output: seq<bv8>)
    requires |key| > 0 && |source| > 0
    ensures |output| == |source|
    ensures forall i :: 0 <= i < |source| ==> output[i] == source[i] ^ key[i % |key|]
    ensures output == XorStream(source, key, 0)
  {
    output := source;
    for i := 0 to |source|
      invariant |output| == |source|
      invariant forall j :: 0 <= j < i ==> output[j] == source[j] ^ key[j % |key|]
      invariant forall j :: i <= j < |source| ==> output[j] == source[j]
    {
      output := output[i := source[i] ^ key[i % |key|]];
    }
    forall j | 0 <= j < |source|
      ensures output[j] == XorStream(source, key, 0)[j]
    {
      XorStreamAt(source, key, 0, j);
    }
  }

  /** The program's round trip: encrypting and then decrypting with the same
      key gives back the source. */
  method EncryptThenDecrypt(source: seq<bv8>, key: seq<bv8>) returns (encrypted: seq<bv8>, decrypted: seq<bv8>)
    requires |key| > 0 && |source| > 0
    ensures |encrypted| == |source|
    ensures decrypted == source
  {
    encrypted := EncryptDecrypt(source, key);
    decrypted := EncryptDecrypt(encrypted, key);
    XorStreamInvolution(source, key, 0);
  }

  /** std::string::find for one byte: the first position of `c`, or None
      in place of npos. */
  function FindByte(s: seq<bv8>, c: bv8): (r: Option<nat>)
    ensures r.Some? ==> r.value < |s| && s[r.value] == c && c !in s[..r.value]
    ensures r.None? <==> c !in s
  {
    if s == [] then None
    else if s[0] == c then Some(0)
    else match FindByte(s[1..], c)
      case None => None
      case Some(j) =>
        assert s[..j + 1] == [s[0]] + s[1..][..j];
        Some(j + 1)
  }

  /** get_student_name: the data before the first newline, or the empty
      string when there is none. */
  function GetStudentName(data: seq<bv8>): (name: seq<bv8>)
    ensures name <= data
    ensures NewLine !in name
    ensures NewLine in data ==> |name| < |data| && data[|name|] == NewLine
    ensures NewLine !in data ==> name == []
  {
    match FindByte(data, NewLine)
    case Some(pos) => data[..pos]
    case None => []
  }
}
