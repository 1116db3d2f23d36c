/** Vocabulary shared by every module: options, 32-bit words and pages. */
module Base {

  datatype Option<+T> = None | Some(value: T)

  type Byte = x: int | 0 <= x < 256
  type Word = x: int | 0 <= x < 0x1_0000_0000

  const WORDS: int := 0x1_0000_0000
  const PAGE_SIZE: int := 4096

  /** No element occurs twice. */
  predicate Distinct<T(==)>(s: seq<T>) {
    forall i, j :: 0 <= i < j < |s| ==> s[i] != s[j]
  }

  /** Unsigned 32-bit addition and subtraction, wrapping at 2^32. */
  function Add32(a: Word, b: Word): Word {
    if a as int + b < WORDS then a as int + b else a as int + b - WORDS
  }

  function Sub32(a: Word, b: Word): Word {
    if b <= a then a - b else a as int - b + WORDS
  }

  /** A signed distance as the 32-bit word that adds it. */
  function Wrap(d: int): Word
    requires -WORDS < d < WORDS
  {
    if d < 0 then d + WORDS else d
  }

  /** PAGE_START, PAGE_OFFSET and PAGE_END; PAGE_END wraps with its 32-bit sum. */
  function PageOffset(x: Word): nat {
    x % PAGE_SIZE
  }

  function PageStart(x: Word): Word {
    x - x % PAGE_SIZE
  }

  function PageEnd(x: Word): Word {
    PageStart(Add32(x, 4095))
  }

  /** Where strrchr(name, '/') leaves off, among the first n characters: one past the slash. */
  function AfterSlash(name: string, n: nat): (k: nat)
    requires n <= |name|
    ensures k <= n
  {
    if n == 0 || name[n - 1] == '/' then n else AfterSlash(name, n - 1)
  }

  /** The C string after the last '/', or the whole string. */
  function Basename(name: string): string {
    name[AfterSlash(name, |name|)..]
  }

  lemma {:induction false} AfterSlashIsLast(name: string, n: nat)
    requires n <= |name|
    ensures var k := AfterSlash(name, n);
            && (k == 0 || name[k - 1] == '/')
            && forall i :: k <= i < n ==> name[i] != '/'
  {
    if n > 0 && name[n - 1] != '/' {
      AfterSlashIsLast(name, n - 1);
    }
  }

  /** A name without a slash is its own basename. */
  lemma {:induction false} PlainName(name: string, n: nat)
    requires n <= |name| && '/' !in name
    ensures AfterSlash(name, n) == 0
  {
    if n > 0 {
      assert name[n - 1] in name;
      PlainName(name, n - 1);
    }
  }

  /** A basename holds no slash, and is what follows the last slash of the name, if any. */
  lemma BasenameIsLastComponent(name: string)
    ensures '/' !in Basename(name)
    ensures var dir := name[..|name| - |Basename(name)|];
            name == dir + Basename(name) && (dir == "" || dir[|dir| - 1] == '/')
  {
    AfterSlashIsLast(name, |name|);
  }
}
