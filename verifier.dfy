/**
 * The call-data check `decodeAndCheckInput`: build the ABI encoding of
 * `transfer(payTo, REQUIRED_AMOUNT)` (Solidity Contract ABI Specification,
 * "Function Selector and Argument Encoding") and accept a transaction whose
 * input contains that encoding, case-insensitively, at any character offset.
 */
module Verifier {
  import opened Wrappers
  import opened Strings
  import opened Hex
  import opened Constants

  /** The first four bytes of keccak256("transfer(address,uint256)"), taken as given. */
  const TransferSelector: string := "a9059cbb"

  /** A uint256 argument is below 2^256. */
  const Uint256Limit: nat := 115792089237316195423570985008687907853269984665640564039457584007913129639936

  /** The limit is 2^256, which is also 16^64: a uint256 is 64 hex digits. */
  lemma Uint256LimitIsPow()
    ensures Uint256Limit == Pow(2, 256) == Pow(16, 64)
  {
    assert Pow(16, 2) == 256;
    PowAdd(16, 2, 2);
    assert Pow(16, 4) == 65536;
    PowAdd(16, 4, 4);
    assert Pow(16, 8) == 4294967296;
    PowAdd(16, 8, 8);
    assert Pow(16, 16) == 18446744073709551616;
    PowAdd(16, 16, 16);
    assert Pow(16, 32) == 340282366920938463463374607431768211456;
    PowAdd(16, 32, 32);
    PowTwoSixteen(64);
  }

  /** Length of an encoded transfer call with its `0x`: 2 + 8 + 64 + 64 hex digits. */
  const TransferDataLength: nat := 138

  datatype Transfer = Transfer(to: string, amount: nat)

  function Zeros(n: nat): (z: string)
    ensures |z| == n && forall i :: 0 <= i < n ==> z[i] == '0'
  {
    seq(n, i => '0')
  }

  /**
   * `encodeFunctionData` for `transfer(address to, uint256 amount)`: the
   * selector, the address left-padded to 32 bytes, the amount as 32
   * big-endian bytes. viem throws on a malformed address or an amount outside
   * uint256; that is `None` here.
   */
  function EncodeTransfer(to: string, amount: int): (r: Option<string>)
    ensures r.Some? <==> IsAddress(to) && 0 <= amount < Uint256Limit
    ensures r.Some? ==> |r.value| == TransferDataLength && IsLower(r.value)
    ensures r.Some? ==> r.value[..2] == "0x" && r.value[2..10] == TransferSelector
  {
    if IsAddress(to) && 0 <= amount < Uint256Limit then
      EncodedCallShape(to, amount);
      Some(CallPrefix() + ToLower(to[2..]) + NatToHex(amount, 64))
    else None
  }

  /** `0x`, the selector and the 12 zero bytes that pad an address to a 32-byte word. */
  function CallPrefix(): (h: string)
    ensures |h| == 34 && IsLower(h) && h[..2] == "0x" && h[2..10] == TransferSelector
  {
    var h := "0x" + TransferSelector + Zeros(24);
    assert IsLower("0x" + TransferSelector);
    IsLowerConcat("0x" + TransferSelector, Zeros(24));
    h
  }

  lemma EncodedCallShape(to: string, amount: nat)
    requires IsAddress(to) && amount < Uint256Limit
    ensures var r := CallPrefix() + ToLower(to[2..]) + NatToHex(amount, 64);
      |r| == TransferDataLength && IsLower(r) && r[..2] == "0x" && r[2..10] == TransferSelector
  {
    Uint256LimitIsPow();
    NatToHexRoundTrip(amount, 64);
    ToLowerIsLower(to[2..]);
    IsLowerConcat(CallPrefix(), ToLower(to[2..]));
    IsLowerConcat(CallPrefix() + ToLower(to[2..]), NatToHex(amount, 64));
    var r := CallPrefix() + ToLower(to[2..]) + NatToHex(amount, 64);
    assert r[..10] == CallPrefix()[..10];
  }

  /** Reads back a transfer call encoded as above (the partner of `EncodeTransfer`). */
  function DecodeTransfer(data: string): (r: Option<Transfer>)
  {
    if |data| == TransferDataLength && data[..2] == "0x" && data[2..10] == TransferSelector && data[10..34] == Zeros(24)
       && IsHex(data[34..74]) && IsHex(data[74..])
    then Some(Transfer("0x" + ToLower(data[34..74]), HexValue(data[74..])))
    else None
  }

  /** Decoding an encoded transfer gives back the recipient (lower-cased) and the amount. */
  lemma TransferRoundTrip(to: string, amount: int)
    requires IsAddress(to) && 0 <= amount < Uint256Limit
    ensures DecodeTransfer(EncodeTransfer(to, amount).value) == Some(Transfer(ToLower(to), amount))
  {
    Uint256LimitIsPow();
    NatToHexRoundTrip(amount, 64);
    var d := EncodeTransfer(to, amount).value;
    var a := ToLower(to[2..]);
    var h := NatToHex(amount, 64);
    assert d == CallPrefix() + a + h;
    assert d[..34] == CallPrefix();
    assert d[10..34] == Zeros(24);
    assert d[34..74] == a;
    assert d[74..] == h;
    ToLowerIsLower(to[2..]);
    ToLowerIdempotent(to[2..]);
    assert to == to[..2] + to[2..];
    ToLowerConcat(to[..2], to[2..]);
    assert ToLower(to[..2]) == "0x";
  }

  /** Whatever decodes is, lower-cased, exactly the encoding of what it decodes to. */
  lemma DecodeThenEncode(data: string)
    requires DecodeTransfer(data).Some?
    ensures EncodeTransfer(DecodeTransfer(data).value.to, DecodeTransfer(data).value.amount) == Some(ToLower(data))
  {
    var t := DecodeTransfer(data).value;
    var a := data[34..74];
    var h := data[74..];
    DecodedAddressWellFormed(a);
    DecodedAmountRendering(h);
    ToLowerIdempotent(a);
    assert t.to[2..] == ToLower(a);
    var e := EncodeTransfer(t.to, t.amount).value;
    assert e == CallPrefix() + ToLower(a) + ToLower(h);
    LowerTransferData(data);
  }

  lemma DecodedAddressWellFormed(a: string)
    requires |a| == 40 && IsHex(a)
    ensures IsAddress("0x" + ToLower(a)) && ("0x" + ToLower(a))[2..] == ToLower(a)
  {
    var to := "0x" + ToLower(a);
    assert to[..2] == "0x" && to[2..] == ToLower(a);
    forall i | 0 <= i < 40 ensures IsHexChar(to[2..][i]) {
      assert to[2..][i] == LowerChar(a[i]);
    }
  }

  lemma DecodedAmountRendering(h: string)
    requires |h| == 64 && IsHex(h)
    ensures HexValue(h) < Uint256Limit && NatToHex(HexValue(h), 64) == ToLower(h)
  {
    HexValueBound(h);
    Uint256LimitIsPow();
    NatToHexRoundTrip(HexValue(h), 64);
    HexValueToLower(h);
    ToLowerIsLower(h);
    HexValueInjective(NatToHex(HexValue(h), 64), ToLower(h));
  }

  /** Lower-casing decodable call data touches only the two argument words. */
  lemma LowerTransferData(data: string)
    requires DecodeTransfer(data).Some?
    ensures ToLower(data) == CallPrefix() + ToLower(data[34..74]) + ToLower(data[74..])
  {
    var a := data[34..74];
    var h := data[74..];
    var head := data[..10] + data[10..34];
    assert head == CallPrefix();
    assert data == head + a + h;
    ToLowerConcat(head + a, h);
    ToLowerConcat(head, a);
    assert ToLower(head) == head;
  }

  /** The encoding is injective: different transfers never encode alike. */
  lemma EncodeTransferInjective(to1: string, amount1: int, to2: string, amount2: int)
    requires EncodeTransfer(to1, amount1).Some? && EncodeTransfer(to2, amount2).Some?
    requires EncodeTransfer(to1, amount1) == EncodeTransfer(to2, amount2)
    ensures ToLower(to1) == ToLower(to2) && amount1 == amount2
  {
    TransferRoundTrip(to1, amount1);
    TransferRoundTrip(to2, amount2);
  }

  /** The call data a payment must carry: `transfer(payTo, REQUIRED_AMOUNT)`. */
  function ExpectedTransferData(): Option<string>
  {
    EncodeTransfer(PayTo, RequiredAmount)
  }

  /** The configured requirement always encodes, and its encoding reads back as that requirement. */
  lemma ExpectedTransferDataIsPayment()
    ensures ExpectedTransferData().Some?
    ensures DecodeTransfer(ExpectedTransferData().value) == Some(Transfer(ToLower(PayTo), RequiredAmount))
  {
    ConfiguredAddressesWellFormed();
    TransferRoundTrip(PayTo, RequiredAmount);
  }

  /**
   * `decodeAndCheckInput`: true iff the lower-cased input contains the
   * lower-cased expected call data without its `0x`, at any offset. If the
   * expected data cannot be built (viem throws) the catch returns false.
   */
  function DecodeAndCheckInput(inputData: string): (ok: bool)
    ensures ok <==> ExpectedTransferData().Some? && Contains(ToLower(inputData), ToLower(ExpectedTransferData().value[2..]))
  {
    match ExpectedTransferData()
    case None => false
    case Some(expectedTransferData) =>
      var searchPattern := ToLower(expectedTransferData[2..]);
      var fullInputData := ToLower(inputData);
      Includes(fullInputData, searchPattern)
  }

  /** The pattern searched for: 136 lower-case hex digits, the encoding without its `0x`. */
  function SearchPattern(): (p: string)
    ensures |p| == TransferDataLength - 2 && IsLower(p) && p[..8] == TransferSelector
    ensures ExpectedTransferData() == Some("0x" + p)
  {
    ExpectedTransferDataIsPayment();
    var e := ExpectedTransferData().value;
    var p := e[2..];
    assert p[..8] == e[2..10];
    assert IsLower(p) by {
      forall i | 0 <= i < |p| ensures !IsUpper(p[i]) {
        assert p[i] == e[i + 2];
      }
    }
    assert e == e[..2] + p;
    p
  }

  /** The check ignores letter case in the transaction input. */
  lemma CheckIsCaseInsensitive(inputData: string)
    ensures DecodeAndCheckInput(inputData) == DecodeAndCheckInput(ToLower(inputData))
  {
    ToLowerIdempotent(inputData);
  }

  /**
   * A payment call embedded anywhere in a larger input (a batched call, or
   * at an odd character offset that is not a byte boundary) is accepted.
   */
  lemma EmbeddedPaymentAccepted(pre: string, post: string)
    ensures DecodeAndCheckInput(pre + SearchPattern() + post)
  {
    var p := SearchPattern();
    ExpectedTransferDataIsPayment();
    ToLowerIsLower(p);
    ToLowerConcat(pre + p, post);
    ToLowerConcat(pre, p);
    ContainsEmbedded(ToLower(pre), p, ToLower(post));
  }

  /** The exact expected call data, with its `0x`, in any letter case, is accepted. */
  lemma ExactPaymentAccepted(inputData: string)
    requires ToLower(inputData) == "0x" + SearchPattern()
    ensures DecodeAndCheckInput(inputData)
  {
    CheckIsCaseInsensitive(inputData);
    EmbeddedPaymentAccepted("0x", "");
    assert "0x" + SearchPattern() + "" == "0x" + SearchPattern();
  }

  /**
   * A transaction whose input is exactly a transfer to another recipient, or
   * of another amount, is rejected.
   */
  lemma OtherTransferRejected(to: string, amount: int)
    requires IsAddress(to) && 0 <= amount < Uint256Limit
    requires Transfer(ToLower(to), amount) != Transfer(ToLower(PayTo), RequiredAmount)
    ensures !DecodeAndCheckInput(EncodeTransfer(to, amount).value)
  {
    var d := EncodeTransfer(to, amount).value;
    var p := SearchPattern();
    var e := "0x" + p;
    assert p[0] == 'a' by { assert p[..8] == TransferSelector; }
    if DecodeAndCheckInput(d) {
      ToLowerIsLower(d);
      ToLowerIsLower(p);
      assert e[2..] == p;
      assert Contains(d, p);
      OnlyTheWholeCallMatches(d, p);
      ExpectedTransferDataIsPayment();
      TransferRoundTrip(to, amount);
      assert false;
    }
  }

  /** In a transfer-sized input the pattern can only sit right after the `0x`, so it is the whole call. */
  lemma OnlyTheWholeCallMatches(d: string, p: string)
    requires |d| == TransferDataLength && d[..2] == "0x"
    requires |p| == TransferDataLength - 2 && p[0] == 'a'
    requires Contains(d, p)
    ensures d == "0x" + p
  {
    var i :| OccursAt(d, p, i);
    assert d[0] == '0' && d[1] == 'x' by { assert d[..2] == "0x"; }
    if i == 2 {
      assert d == d[..2] + d[2..];
    }
  }
}
