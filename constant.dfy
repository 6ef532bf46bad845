/**
 * The gate's single payment requirement, fixed for the life of the server
 * process: the recipient, the token, the exact amount in the token's
 * smallest unit, the accepted transaction age and the claim TTL.
 */
module Constants {
  import opened Hex

  /** Oldest accepted mined transaction, in seconds (ten minutes). */
  const MaxTxAgeSeconds: nat := 10 * 60

  /** Lifetime of a claim in the store, in seconds: the age window plus two minutes' grace. */
  const RedisTtl: nat := MaxTxAgeSeconds + 120

  /** The address every payment must be sent to. */
  const PayTo: string := "0xd5de8324D526A201672B30584e495C71BeBb3e9A"

  datatype TokenConfig = TokenConfig(address: string, name: string, decimals: nat)

  const TokenAddress: string := "0x940A4894a2c72231c9AD70E6D32B7edadC8F76e3"

  /** The ERC-20 token payments are made in. */
  const Token: TokenConfig := TokenConfig(TokenAddress, "USD Coin", 18)

  /** The exact amount required, in the token's smallest unit. */
  const RequiredAmount: nat := 1000000000000000000

  /** The chain identifier of Sepolia, quoted to callers that have not paid. */
  const SepoliaChainId: nat := 11155111

  /** A claim outlives the accepted age window, by exactly two minutes. */
  lemma ClaimOutlivesAgeWindow()
    ensures MaxTxAgeSeconds == 600
    ensures RedisTtl == MaxTxAgeSeconds + 120 && RedisTtl > MaxTxAgeSeconds
  {
  }

  /** The required amount is one whole token at the token's precision. */
  lemma {:induction false} RequiredAmountIsOneToken()
    ensures Token.decimals == 18
    ensures RequiredAmount == Pow(10, Token.decimals)
  {
    var p := Pow(10, 9);
    assert p == 1000000000;
    PowAdd(10, 9, 9);
  }

  /** Both configured addresses are 20-byte addresses: `0x` and 40 hex digits. */
  lemma ConfiguredAddressesWellFormed()
    ensures IsAddress(PayTo) && IsAddress(Token.address)
  {
    PayToPrefix();
    PayToDigits0(); PayToDigits1(); PayToDigits2(); PayToDigits3();
    HexTail(PayTo);
    TokenAddressPrefix();
    TokenAddressDigits0(); TokenAddressDigits1(); TokenAddressDigits2(); TokenAddressDigits3();
    HexTail(TokenAddress);
  }

  lemma HexTail(s: string)
    requires |s| == 42 && forall i | 2 <= i < 42 :: IsHexChar(s[i])
    ensures IsHex(s[2..])
  {
    forall j | 0 <= j < 40 ensures IsHexChar(s[2..][j]) {
      assert s[2..][j] == s[j + 2];
    }
  }

  lemma PayToPrefix()
    ensures |PayTo| == 42 && PayTo[..2] == "0x"
  {
    assert PayTo[0] == '0' && PayTo[1] == 'x';
  }

  lemma TokenAddressPrefix()
    ensures |TokenAddress| == 42 && TokenAddress[..2] == "0x"
  {
    assert TokenAddress[0] == '0' && TokenAddress[1] == 'x';
  }

  // The hex digits of the two literals, ten at a time (small proofs over literal strings).

  lemma PayToDigits0()
    ensures forall i | 2 <= i < 12 :: IsHexChar(PayTo[i])
  {
  }

  lemma PayToDigits1()
    ensures forall i | 12 <= i < 22 :: IsHexChar(PayTo[i])
  {
  }

  lemma PayToDigits2()
    ensures forall i | 22 <= i < 32 :: IsHexChar(PayTo[i])
  {
  }

  lemma PayToDigits3()
    ensures forall i | 32 <= i < 42 :: IsHexChar(PayTo[i])
  {
  }

  lemma TokenAddressDigits0()
    ensures forall i | 2 <= i < 12 :: IsHexChar(TokenAddress[i])
  {
  }

  lemma TokenAddressDigits1()
    ensures forall i | 12 <= i < 22 :: IsHexChar(TokenAddress[i])
  {
  }

  lemma TokenAddressDigits2()
    ensures forall i | 22 <= i < 32 :: IsHexChar(TokenAddress[i])
  {
  }

  lemma TokenAddressDigits3()
    ensures forall i | 32 <= i < 42 :: IsHexChar(TokenAddress[i])
  {
  }
}
