/**
 The public entry points of the Mozart++ `format` header (namespace `mpp`).
 */
module Mpp {
  import opened MppImpl

  /** `mpp::format(s, args...)`. Without arguments the template comes back
      as it is (the zero-argument overload); otherwise the template is copied
      and handed to the variadic driver, whose final text is returned. */
  method Format<V>(s: string, args: seq<Arg<V>>, toText: V -> string) returns (result: string)
    ensures |args| == 0 ==> result == s
    ensures result == Formatted(s, args, toText)
  {
    if |args| == 0 {
      result := s;
    } else {
      result := FormatArgs(s, args, toText);
    }
  }
}
