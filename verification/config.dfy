/** Application settings of backend/config.py: the comma-separated CORS origin
    setting and the list of origins derived from it. */
module Config {
  import Text

  const DefaultCorsOrigins := "http://localhost:5173"

  /** `Settings.cors_origins_list`: split on commas, strip each piece. */
  function CorsOriginsList(corsOrigins: string): (r: seq<string>)
    ensures |r| == Text.Occurrences(corsOrigins, ',') + 1
    ensures forall i :: 0 <= i < |r| ==> r[i] == Text.Trim(Text.Split(corsOrigins, ',')[i])
  {
    var pieces := Text.Split(corsOrigins, ',');
    seq(|pieces|, i requires 0 <= i < |pieces| => Text.Trim(pieces[i]))
  }

  /** No origin in the list has surrounding whitespace or contains a comma. */
  lemma OriginsAreClean(corsOrigins: string)
    ensures forall i :: 0 <= i < |CorsOriginsList(corsOrigins)| ==>
      Text.Trim(CorsOriginsList(corsOrigins)[i]) == CorsOriginsList(corsOrigins)[i]
      && ',' !in CorsOriginsList(corsOrigins)[i]
  {
    var r := CorsOriginsList(corsOrigins);
    var pieces := Text.Split(corsOrigins, ',');
    forall i | 0 <= i < |r|
      ensures Text.Trim(r[i]) == r[i] && ',' !in r[i]
    {
      Text.TrimIdempotent(pieces[i]);
      Text.TrimIsInfix(pieces[i]);
    }
  }

  /** When no origin has surrounding whitespace, joining the list with commas
      gives back the setting: the list keeps every origin, in order. */
  lemma OriginsRoundTrip(origins: seq<string>)
    requires |origins| >= 1
    requires forall i :: 0 <= i < |origins| ==> ',' !in origins[i] && Text.Trim(origins[i]) == origins[i]
    ensures CorsOriginsList(Text.Join(origins, ',')) == origins
  {
    Text.SplitJoin(origins, ',');
  }

  /** A setting naming one origin without commas or surrounding whitespace
      yields that origin alone. */
  lemma SingleOrigin(s: string)
    requires ',' !in s
    requires s != [] ==> !Text.IsSpace(s[0]) && !Text.IsSpace(s[|s| - 1])
    ensures CorsOriginsList(s) == [s]
  {
    Text.SplitFree(s, ',');
    Text.TrimNoop(s);
  }

  /** The default setting allows exactly the Vite development server. */
  lemma DefaultOrigins()
    ensures CorsOriginsList(DefaultCorsOrigins) == [DefaultCorsOrigins]
  {
    SingleOrigin(DefaultCorsOrigins);
  }
}
