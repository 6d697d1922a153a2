/**
 * The fixed texts both bots reply with.  Only the denial carries data: the
 * user id, printed as Python prints an `int`.
 */
module Notices {
  import opened Wrappers
  import Numerals

  const DenialPrefix := "죄송합니다. 이 봇은 인증된 사용자만 사용할 수 있습니다.\n당신의 User ID: "

  /** The reply to a user who is not on the allow-list. */
  function Denial(userId: int): string
  {
    DenialPrefix + Numerals.IntToString(userId)
  }

  const TextAck := "전사문을 분석하고 있습니다..."
  const PhotoAck := "이미지를 분석하고 있습니다..."
  const TextApology := "분석 중 오류가 발생했습니다. 다시 시도해주세요."
  const PhotoApology := "이미지 분석 중 오류가 발생했습니다. 다시 시도해주세요."

  const Welcome := "안녕하세요! 팟캐스트 영어 학습 도우미입니다.\n\n사용법:\n1. 팟캐스트 전사문 텍스트를 보내주세요\n2. 또는 전사문 캡처 이미지를 보내주세요\n\n전사문을 분석해서 주요 어휘, 문법, 발음 팁을 제공해드립니다!"

  const HelpText := "사용 가능한 명령어:\n/start - 봇 시작\n/help - 도움말 보기\n\n팟캐스트 전사문을 텍스트나 이미지로 보내면 분석해드립니다."

  /** The denial ends in the user's id, which reads back as that id. */
  lemma DenialNamesUser(userId: int)
    ensures var d := Denial(userId);
            |d| > |DenialPrefix| && d[..|DenialPrefix|] == DenialPrefix
            && Numerals.ParseInt(d[|DenialPrefix|..]) == Some(userId)
  {
    var d := Denial(userId);
    assert d[|DenialPrefix|..] == Numerals.IntToString(userId);
    Numerals.IntToStringChars(userId);
    Numerals.ParseIntRoundTrip(userId);
  }

  /** Different users get different denials. */
  lemma DenialInjective(u: int, v: int)
    requires Denial(u) == Denial(v)
    ensures u == v
  {
    var du, dv := Denial(u), Denial(v);
    assert du[|DenialPrefix|..] == Numerals.IntToString(u);
    assert dv[|DenialPrefix|..] == Numerals.IntToString(v);
    Numerals.IntToStringInjective(u, v);
  }
}
