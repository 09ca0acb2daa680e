/**
 * The configuration gate at the start of `main`: five settings read from the
 * environment are checked in a fixed order, and the first one that is
 * undefined stops the program with an error naming it.
 */
module Config {
  import opened Wrappers

  /** The five settings, named after the environment variables they come from. */
  datatype Setting = AppKey | AppSecret | AccessToken | AccessSecret | TargetUserId

  /** The settings as read from the environment; an unset variable is `None`. */
  datatype Environment = Environment(
    appKey: Option<string>,
    appSecret: Option<string>,
    accessToken: Option<string>,
    accessSecret: Option<string>,
    targetUserId: Option<string>)

  /** A configuration that passed the gate: every setting is defined. */
  datatype Credentials = Credentials(
    appKey: string,
    appSecret: string,
    accessToken: string,
    accessSecret: string,
    targetUserId: string)

  function Lookup(env: Environment, s: Setting): Option<string>
  {
    match s
    case AppKey => env.appKey
    case AppSecret => env.appSecret
    case AccessToken => env.accessToken
    case AccessSecret => env.accessSecret
    case TargetUserId => env.targetUserId
  }

  /** The order in which the gate inspects the settings. */
  const CHECK_ORDER: seq<Setting> := [AppKey, AppSecret, AccessToken, AccessSecret, TargetUserId]

  /** The message of the error thrown when the setting is undefined. */
  function RequiredMessage(s: Setting): string
  {
    match s
    case AppKey => "app key is required"
    case AppSecret => "app secret is required"
    case AccessToken => "access token is required"
    case AccessSecret => "access secret is required"
    case TargetUserId => "target user id is required"
  }

  /**
   * The gate as the program runs it: one early exit per setting, in order.
   * It only asks whether a setting is undefined, so an empty string passes.
   */
  function CheckConfiguration(env: Environment): (r: Result<Credentials, string>)
    ensures r.Success? <==> forall s: Setting :: Lookup(env, s).Some?
    ensures r.Success? ==>
      && Some(r.value.appKey) == env.appKey
      && Some(r.value.appSecret) == env.appSecret
      && Some(r.value.accessToken) == env.accessToken
      && Some(r.value.accessSecret) == env.accessSecret
      && Some(r.value.targetUserId) == env.targetUserId
    ensures r.Failure? ==> exists s: Setting :: Lookup(env, s).None? && r.error == RequiredMessage(s)
  {
    if env.appKey.None? then
      assert Lookup(env, AppKey).None?;
      Failure(RequiredMessage(AppKey))
    else if env.appSecret.None? then
      assert Lookup(env, AppSecret).None?;
      Failure(RequiredMessage(AppSecret))
    else if env.accessToken.None? then
      assert Lookup(env, AccessToken).None?;
      Failure(RequiredMessage(AccessToken))
    else if env.accessSecret.None? then
      assert Lookup(env, AccessSecret).None?;
      Failure(RequiredMessage(AccessSecret))
    else if env.targetUserId.None? then
      assert Lookup(env, TargetUserId).None?;
      Failure(RequiredMessage(TargetUserId))
    else
      Success(Credentials(env.appKey.value, env.appSecret.value, env.accessToken.value,
                          env.accessSecret.value, env.targetUserId.value))
  }

  /** Reference definition: the first setting in `order` that is undefined in `env`. */
  function FirstMissing(env: Environment, order: seq<Setting>): (r: Option<nat>)
    ensures r.Some? ==> r.value < |order| && Lookup(env, order[r.value]).None?
    ensures r.Some? ==> forall k :: 0 <= k < r.value ==> Lookup(env, order[k]).Some?
    ensures r.None? ==> forall k :: 0 <= k < |order| ==> Lookup(env, order[k]).Some?
  {
    if order == [] then None
    else if Lookup(env, order[0]).None? then Some(0)
    else match FirstMissing(env, order[1..])
      case None => None
      case Some(k) => Some(k + 1)
  }

  /**
   * The gate fails exactly when some setting is undefined, and then with the
   * message of the first undefined setting in CHECK_ORDER.
   */
  lemma CheckReportsFirstMissing(env: Environment)
    ensures CheckConfiguration(env).Failure? <==> FirstMissing(env, CHECK_ORDER).Some?
    ensures FirstMissing(env, CHECK_ORDER).Some? ==>
      CheckConfiguration(env).error == RequiredMessage(CHECK_ORDER[FirstMissing(env, CHECK_ORDER).value])
  {
    var m := FirstMissing(env, CHECK_ORDER);
    if m.Some? {
      var k := m.value;
      assert k < 5;
      assert forall j :: 0 <= j < k ==> Lookup(env, CHECK_ORDER[j]).Some?;
      if k == 0 {
      } else if k == 1 {
        assert Lookup(env, CHECK_ORDER[0]).Some?;
      } else if k == 2 {
        assert Lookup(env, CHECK_ORDER[0]).Some? && Lookup(env, CHECK_ORDER[1]).Some?;
      } else if k == 3 {
        assert Lookup(env, CHECK_ORDER[0]).Some? && Lookup(env, CHECK_ORDER[1]).Some?;
        assert Lookup(env, CHECK_ORDER[2]).Some?;
      } else {
        assert Lookup(env, CHECK_ORDER[0]).Some? && Lookup(env, CHECK_ORDER[1]).Some?;
        assert Lookup(env, CHECK_ORDER[2]).Some? && Lookup(env, CHECK_ORDER[3]).Some?;
      }
    } else {
      assert forall k :: 0 <= k < 5 ==> Lookup(env, CHECK_ORDER[k]).Some?;
      assert Lookup(env, CHECK_ORDER[0]).Some? && Lookup(env, CHECK_ORDER[1]).Some?;
      assert Lookup(env, CHECK_ORDER[2]).Some? && Lookup(env, CHECK_ORDER[3]).Some?;
      assert Lookup(env, CHECK_ORDER[4]).Some?;
    }
  }

  /**
   * Settings after the first undefined one are never inspected: two
   * environments that agree up to and including it fail the same way.
   */
  lemma LaterSettingsNotInspected(env: Environment, env': Environment, k: nat)
    requires k < |CHECK_ORDER|
    requires forall j :: 0 <= j <= k ==> Lookup(env, CHECK_ORDER[j]) == Lookup(env', CHECK_ORDER[j])
    requires Lookup(env, CHECK_ORDER[k]).None?
    ensures CheckConfiguration(env).Failure?
    ensures CheckConfiguration(env) == CheckConfiguration(env')
  {
    assert Lookup(env, CHECK_ORDER[0]) == Lookup(env', CHECK_ORDER[0]);
    if k >= 1 { assert Lookup(env, CHECK_ORDER[1]) == Lookup(env', CHECK_ORDER[1]); }
    if k >= 2 { assert Lookup(env, CHECK_ORDER[2]) == Lookup(env', CHECK_ORDER[2]); }
    if k >= 3 { assert Lookup(env, CHECK_ORDER[3]) == Lookup(env', CHECK_ORDER[3]); }
    if k >= 4 { assert Lookup(env, CHECK_ORDER[4]) == Lookup(env', CHECK_ORDER[4]); }
  }

  /** Each message names exactly one setting. */
  lemma MessagesNameOneSetting(s: Setting, t: Setting)
    ensures RequiredMessage(s) == RequiredMessage(t) <==> s == t
  {
  }
}
