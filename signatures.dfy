/**
 * verify_signature.  Recovering the signer of an EIP-191 personal message is
 * a foreign cryptographic call: it is the parameter `recover`, which answers
 * the signer's address, or `None` where the library raises.
 */
module Signatures {
  import opened Wrappers
  import opened Text

  /** The signature value that makes send_transaction skip verification. */
  const MOCK_SIGNATURE: string := "0x_mock_signature_for_testing"

  /** The recovered signer equals the claimed address, ignoring case. */
  function VerifySignature(recover: (string, string) -> Option<string>, message: string,
                           signature: string, address: string): (ok: bool)
    ensures ok <==> exists signer :: recover(message, signature) == Some(signer) && Lower(signer) == Lower(address)
  {
    match recover(message, signature)
    case None => false
    case Some(signer) => Lower(signer) == Lower(address)
  }

  /** The claimed address is compared case-insensitively. */
  lemma VerifyIgnoresCase(recover: (string, string) -> Option<string>, message: string,
                          signature: string, address: string)
    ensures VerifySignature(recover, message, signature, address)
        == VerifySignature(recover, message, signature, Lower(address))
  {
    LowerIdempotent(address);
  }
}
