/** Pages and keys (page.c, src/page.h): C strings, the djb2 key hash and
    byte-exact key comparison. */
module Pages {

  /** An `unsigned char`. */
  newtype byte = b: int | 0 <= b < 256

  /** `unsigned long` is 64 bits wide on the platforms the cache targets. */
  const ULONG_MODULUS: nat := 0x1_0000_0000_0000_0000

  /** The bytes of a C string before its terminating NUL. */
  type Text = s: seq<byte> | 0 !in s

  /** A `char*` that points at a NUL-terminated string. Two `CString`
      objects are two pointers; their `text` is what they point at. */
  class CString {
    const text: Text

    constructor (text: Text)
      ensures this.text == text
    {
      this.text := text;
    }
  }

  /** A cached page: its key (src/page.h:6-9) and its payload with the
      payload's length (page.h:5-8). Pages never change once created. */
  class Page {
    const key: CString
    const data: Text
    const size: nat := |data|

    /** `create_page`: the key and the payload are copied into storage the
        page owns, and `size` is `strlen` of the payload. */
    constructor (key: Text, arr: Text)
      ensures fresh(this.key) && this.key.text == key
      ensures data == arr && size == |arr|
    {
      this.key := new CString(key);
      data := arr;
    }
  }

  /** `copy_page`: an independent page with the same key and payload. */
  method CopyPage(page: Page) returns (copy: Page)
    ensures fresh(copy) && fresh(copy.key) && copy != page
    ensures copy.key.text == page.key.text
    ensures copy.data == page.data && copy.size == page.size
  {
    copy := new Page(page.key.text, page.data);
  }

  /** The pages of the page test: "" has size 0 and "Hello" size 5, each
      holding its own bytes. */
  method CreatePageExamples() returns (empty: Page, hello: Page)
    ensures empty.size == 0 && empty.data == []
    ensures hello.size == 5 && hello.data == [72, 101, 108, 108, 111]
  {
    empty := new Page([], []);
    hello := new Page([], [72, 101, 108, 108, 111]);
  }

  /** djb2 over the bytes of `s`: start at 5381 and fold each byte in as
      `h * 33 + c`, wrapping around like an `unsigned long`. */
  function Djb2(s: seq<byte>): (h: nat)
    ensures h < ULONG_MODULUS
  {
    if s == [] then 5381
    else (Djb2(s[..|s| - 1]) * 33 + s[|s| - 1] as int) % ULONG_MODULUS
  }

  /** The position of the first NUL in a buffer: `strlen`. */
  function FirstNul(buf: seq<byte>): (n: nat)
    requires 0 in buf
    ensures n < |buf| && buf[n] == 0 && 0 !in buf[..n]
  {
    if buf[0] == 0 then 0 else 1 + FirstNul(buf[1..])
  }

  /** The static `hash` of page.c: walk the buffer until its NUL, folding
      every byte before it into the accumulator. */
  method Hash(str: seq<byte>) returns (h: nat)
    requires 0 in str
    ensures h == Djb2(str[..FirstNul(str)])
  {
    h := 5381;
    var i := 0;
    while str[i] != 0
      invariant 0 <= i <= FirstNul(str)
      invariant h == Djb2(str[..i])
      decreases FirstNul(str) - i
    {
      assert str[..i + 1][..i] == str[..i];
      h := (h * 33 + str[i] as int) % ULONG_MODULUS;
      i := i + 1;
    }
  }

  /** `key_hash`: djb2 of the key the pointer points at. */
  function KeyHash(key: CString): (h: nat)
    ensures h < ULONG_MODULUS
  {
    Djb2(key.text)
  }

  /** `key_equal`: the same pointer is equal at once; strings of different
      lengths are not; otherwise the bytes decide. */
  function KeyEqual(lhs: CString, rhs: CString): (r: bool)
    ensures lhs == rhs ==> r
    ensures |lhs.text| != |rhs.text| ==> !r
    ensures r <==> lhs.text == rhs.text
  {
    if lhs == rhs then true
    else if |lhs.text| != |rhs.text| then false
    else lhs.text == rhs.text
  }

  /** A NUL-free text followed by its terminator has its NUL right after
      the text, so `Hash` of a C string is djb2 of its text. */
  lemma {:induction false} FirstNulOfCString(t: Text)
    ensures 0 in t + [0]
    ensures FirstNul(t + [0]) == |t|
    ensures (t + [0])[..FirstNul(t + [0])] == t
  {
    assert (t + [0])[|t|] == 0;
    if t != [] {
      assert (t + [0])[1..] == t[1..] + [0];
      FirstNulOfCString(t[1..]);
    }
  }

  /** The hash depends on the key's bytes only: keys that compare equal
      land in the same bucket whatever pointers carry them. */
  lemma KeyHashRespectsKeyEqual(a: CString, b: CString)
    requires KeyEqual(a, b)
    ensures KeyHash(a) == KeyHash(b)
  {
  }

  /** The empty key hashes to the seed, and "a" (byte 97) to 5381*33+97. */
  lemma Djb2Examples()
    ensures Djb2([]) == 5381
    ensures Djb2([97]) == 177670
  {
    assert [97 as byte][..0] == [];
  }
}
