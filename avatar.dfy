/** api/avatar.js: the avatar image of a Letterboxd user, read from the
    profile page with a fallback chain, made absolute when it is
    protocol-relative. */
module Avatar {
  import opened Text
  import opened Net
  import opened Users

  // ------------------------------------------------------------ norm

  /** norm(u) of api/avatar.js: like normUser, but the final test has no
      i flag. `u` is None when the query has no `user` parameter. */
  function Norm(u: Option<string>): (r: Option<string>)
    ensures r.Some? ==> ValidUser(r.value)
  {
    if u.None? || u.value == "" then None
    else
      var s := Lower(StripAt(Trim(u.value)));
      if ValidUser(s) then Some(s) else None
  }

  /** After lower-casing, testing with and without the i flag agree. */
  lemma ValidIgnoreCaseOfLower(s: string)
    ensures ValidUserIgnoreCase(Lower(s)) <==> ValidUser(Lower(s))
  {
    var l := Lower(s);
    assert forall i :: 0 <= i < |l| ==> LowerChar(l[i]) == l[i];
  }

  /** So norm accepts exactly the names normUser accepts, and gives the same
      name for them. */
  lemma NormIsNormUser(u: Option<string>)
    ensures Norm(u) == NormUser(u)
  {
    if u.Some? && u.value != "" {
      ValidIgnoreCaseOfLower(StripAt(Trim(u.value)));
    }
  }

  // ------------------------------------------------------------ the source

  /** What the HTML parser finds on a profile page: the `src` of the first
      `#avatar-large` element, that of the first `img.avatar` and the
      `content` of the first `meta[property="og:image"]` (None where there
      is no such element or it lacks the attribute). */
  datatype Profile = Profile(avatarLarge: Option<string>, imgAvatar: Option<string>, ogImage: Option<string>)

  /** The `src` chain: the first non-empty of the three, else "". */
  function AvatarSrc(p: Profile): (src: string)
    ensures src != "" ==> Some(src) in [p.avatarLarge, p.imgAvatar, p.ogImage]
    ensures !Falsy(p.avatarLarge) ==> src == p.avatarLarge.value
    ensures Falsy(p.avatarLarge) && !Falsy(p.imgAvatar) ==> src == p.imgAvatar.value
    ensures Falsy(p.avatarLarge) && Falsy(p.imgAvatar) ==> src == (if Falsy(p.ogImage) then "" else p.ogImage.value)
  {
    var chain := [p.avatarLarge, p.imgAvatar, p.ogImage];
    match FirstTruthy(chain)
    case None =>
      assert Falsy(chain[0]) && Falsy(chain[1]) && Falsy(chain[2]);
      ""
    case Some(s) =>
      assert Falsy(chain[0]) ==> chain[1] == Some(s) || chain[2] == Some(s);
      s
  }

  /** The protocol-relative fix: a source beginning "//" gets "https:". */
  function Absolute(src: string): string {
    if src != "" && StartsWith(src, "//") then "https:" + src else src
  }

  /** The fix leaves no source protocol-relative, keeps the source as its
      suffix, adds only "https:" and changes any other source not at all. */
  lemma AbsoluteNotRelative(src: string)
    ensures !StartsWith(Absolute(src), "//")
    ensures EndsWith(Absolute(src), src)
    ensures Absolute(src) == src || Absolute(src) == "https:" + src
    ensures !StartsWith(src, "//") ==> Absolute(src) == src
  {
    var r := Absolute(src);
    if StartsWith(src, "//") {
      assert r[0] == 'h';
      assert r[|r| - |src|..] == src;
    } else {
      assert r[|r| - |src|..] == src;
    }
  }

  /** So the fix is idempotent. */
  lemma AbsoluteIdempotent(src: string)
    ensures Absolute(Absolute(src)) == Absolute(src)
  {
    AbsoluteNotRelative(src);
  }

  // ------------------------------------------------------------ the handler

  function ProfileUrl(user: string): string {
    "https://letterboxd.com/" + user + "/"
  }

  /** The replies: 400, 502, 500, or 200 with the avatar or null. */
  datatype Reply = BadRequest(error: string)
                 | BadGateway(error: string)
                 | Failure(error: string)
                 | Found(avatar: Option<string>)

  /** The handler for the query parameter `user`: one request, for the
      profile page. */
  function AvatarReply(user: Option<string>, net: Net<Profile>): Reply {
    match Norm(user)
    case None => BadRequest("bad user")
    case Some(u) =>
      match net.Next()
      case None => Failure(ErrorMessage(NetworkError, ProfileUrl(u)))
      case Some(r) =>
        if !r.ok || Blocked(r.html, BlockPhrases) then BadGateway("blocked")
        else
          var src := Absolute(AvatarSrc(r.doc));
          Found(if src == "" then None else Some(src))
  }

  method Handler(user: Option<string>, net: Net<Profile>) returns (reply: Reply, after: Net<Profile>)
    ensures reply == AvatarReply(user, net)
    ensures Norm(user).None? ==> after == net
    ensures Norm(user).Some? ==> after == net.After(ProfileUrl(Norm(user).value))
  {
    var u := Norm(user);
    if u.None? {
      return BadRequest("bad user"), net;
    }
    var url := ProfileUrl(u.value);
    var r := net.Next();
    after := net.After(url);
    if r.None? {
      return Failure(ErrorMessage(NetworkError, url)), after;
    }
    var res := r.value;
    if !res.ok || Blocked(res.html, BlockPhrases) {
      return BadGateway("blocked"), after;
    }
    var src := AvatarSrc(res.doc);
    if src != "" && StartsWith(src, "//") {
      src := "https:" + src;
    }
    reply := Found(if src == "" then None else Some(src));
  }

  /** The reply as the handler promises it: 400 exactly for a user norm
      refuses; 502 exactly for a refused or blocked page; otherwise the
      avatar, null exactly when the chain finds no source, and never
      protocol-relative. */
  lemma AvatarReplyCases(user: Option<string>, net: Net<Profile>)
    ensures var r := AvatarReply(user, net);
            && (r.BadRequest? <==> NormUser(user).None?)
            && (r.BadGateway? <==> NormUser(user).Some? && net.Next().Some? &&
                                   (!net.Next().value.ok || Blocked(net.Next().value.html, BlockPhrases)))
            && (r.Found? ==> net.Next().Some? && net.Next().value.ok)
            && (r.Found? ==> (r.avatar.None? <==> AvatarSrc(net.Next().value.doc) == ""))
            && (r.Found? && r.avatar.Some? ==> !StartsWith(r.avatar.value, "//") &&
                                               EndsWith(r.avatar.value, AvatarSrc(net.Next().value.doc)))
  {
    NormIsNormUser(user);
    var r := AvatarReply(user, net);
    if r.Found? {
      var src := AvatarSrc(net.Next().value.doc);
      AbsoluteNotRelative(src);
      assert Absolute(src) == "" <==> src == "";
    }
  }

  /** "@Name" and "name" ask for the same profile. */
  lemma AtAndCaseIgnored(v: string, net: Net<Profile>)
    requires ValidUserIgnoreCase(v) && v[0] != '@'
    ensures AvatarReply(Some("@" + v), net) == AvatarReply(Some(Lower(v)), net)
  {
    NormUserStripsAtAndCase(v);
    NormIsNormUser(Some("@" + v));
    LowerOfValidIgnoreCase(v);
    NormUserOfValid(Lower(v));
    NormIsNormUser(Some(Lower(v)));
  }
}
