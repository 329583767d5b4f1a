/**
 * The pagination token shared by ListLikedYou and ListNewLikedYou: the
 * decimal text of a row offset. Decoding is lenient (an absent or unreadable
 * token means offset 0); a next token is issued only after a full page.
 */
module Cursor {
  import opened Wrappers
  import opened Decimal

  /** PAGE_LIMIT: rows per page, also the step between successive offsets. */
  const PageLimit: nat := 10

  /**
   * The offset a request resumes at. `token` is the optional pagination
   * token field of the request; Atoi's error is swallowed, never surfaced.
   */
  function DecodeOffset(token: Option<string>): (offset: int)
    ensures InInt64(offset)
    ensures token.None? ==> offset == 0
  {
    match token
    case None => 0
    case Some(s) =>
      match Atoi(s)
      case Some(n) => n
      case None => 0
  }

  /**
   * The next-page token of a response whose page at `offset` holds
   * `pageLen` likers: the decimal text of `offset + PageLimit` (in Go's
   * wrapping `int` arithmetic) when the page is full, else empty.
   */
  function NextToken(offset: int, pageLen: nat): (token: string)
    ensures token != "" <==> pageLen == PageLimit
    ensures token != "" ==> DecodeOffset(Some(token)) == Wrap64(offset + PageLimit)
  {
    if pageLen == PageLimit then
      AtoiItoa(Wrap64(offset + PageLimit));
      Itoa(Wrap64(offset + PageLimit))
    else ""
  }

  /** A token that is not an optionally signed run of digits reads as offset 0. */
  lemma DecodeMalformed(s: string)
    requires !IsSignedDecimal(s)
    ensures DecodeOffset(Some(s)) == 0
  {
  }

  /** A well-formed token in the 64-bit range reads as the integer it spells. */
  lemma DecodeWellFormed(s: string)
    requires IsSignedDecimal(s) && InInt64(SignedValue(s))
    ensures DecodeOffset(Some(s)) == SignedValue(s)
  {
    AtoiAccepts(s);
  }

  /** A well-formed token outside the 64-bit range also reads as offset 0. */
  lemma DecodeOutOfRange(s: string)
    requires IsSignedDecimal(s) && !InInt64(SignedValue(s))
    ensures DecodeOffset(Some(s)) == 0
  {
    AtoiRejectsOutOfRange(s);
  }

  /** Decoding an issued token resumes exactly ten rows further on. */
  lemma NextTokenResumes(offset: int, pageLen: nat)
    requires 0 <= offset <= MaxInt64 - PageLimit
    requires pageLen == PageLimit
    ensures NextToken(offset, pageLen) != ""
    ensures DecodeOffset(Some(NextToken(offset, pageLen))) == offset + PageLimit
  {
  }
}
