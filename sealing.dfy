/**
 * The two encryption layers of an `.sdb` file. `put` and `encall` encrypt
 * the JSON text under `Ekey` and then under `key`; `get` and `decall`
 * decrypt under `key` and then under `Ekey`. The cipher itself
 * (`openssl_encrypt` with the configured cipher and IV) is a parameter.
 */
module Sealing {
  /** `Encrypt($text, $cipher, $k, $iv)` or `Decrypt(…)` with the cipher and IV fixed. */
  type Cipher = (string, string) -> string

  /** Decryption under `k` undoes encryption under `k`. */
  ghost predicate Inverts(encrypt: Cipher, decrypt: Cipher, k: string) {
    forall text :: decrypt(encrypt(text, k), k) == text
  }

  /** What `put` writes for `content`: the inner layer under `Ekey`, the outer one under `key`. */
  function Seal(encrypt: Cipher, content: string, ekey: string, key: string): string {
    encrypt(encrypt(content, ekey), key)
  }

  /** What `get` decodes from the file text: the outer layer comes off first. */
  function Unseal(decrypt: Cipher, data: string, ekey: string, key: string): string {
    decrypt(decrypt(data, key), ekey)
  }

  /**
   * With a cipher whose decryption inverts its encryption under both keys,
   * `get` reads back the text `put` wrote, and `decall` undoes `encall`.
   */
  lemma UnsealSeal(encrypt: Cipher, decrypt: Cipher, content: string, ekey: string, key: string)
    requires Inverts(encrypt, decrypt, ekey) && Inverts(encrypt, decrypt, key)
    ensures Unseal(decrypt, Seal(encrypt, content, ekey, key), ekey, key) == content
  {
    assert decrypt(encrypt(encrypt(content, ekey), key), key) == encrypt(content, ekey);
  }
}
