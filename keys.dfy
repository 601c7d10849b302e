/**
 * Key entities as the key ring service sees them, the change events it posts,
 * and the argument check it applies to key identifiers.
 */
module Keys {

  /**
   * One stored key. `keyId` is the primary identifier from the key's info.
   * The key material is abstracted by two of its derived capabilities:
   * `canDecrypt` (it holds usable private key data) and `altIds` (the
   * identifiers of its master key and of every subkey).
   */
  datatype Key = Key(keyId: string, canDecrypt: bool, altIds: set<string>)
  {
    /** Whether `id` names the master key or any subkey of this key's material. */
    predicate HasAlternativeId(id: string)
    {
      id in altIds
    }
  }

  /** What the service posts on the event bus after a change: an entity added or removed. */
  datatype Event = Added(key: Key) | Removed(key: Key)

  /** Why an operation of the service throws instead of completing. */
  datatype KeyRingError =
    | InvalidArgument   // a required argument is empty
    | AlreadyAdded      // a key with that primary identifier exists and is no upgrade

  /**
   * The whitespace test of the Java platform: the ASCII controls tab to
   * carriage return, the four information separators, and the Unicode space,
   * line and paragraph separators other than the three non-breaking ones.
   */
  predicate IsWhitespace(c: char)
  {
    var n := c as int;
    (0x09 <= n <= 0x0D) || (0x1C <= n <= 0x20) ||
    n == 0x1680 || (0x2000 <= n <= 0x2006) || (0x2008 <= n <= 0x200A) ||
    n == 0x2028 || n == 0x2029 || n == 0x205F || n == 0x3000
  }

  /** A string "has text" when it holds at least one non-whitespace character. */
  predicate HasText(s: string)
  {
    exists i :: 0 <= i < |s| && !IsWhitespace(s[i])
  }
}
