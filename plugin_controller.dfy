/** The plugin controller (src/obs_scene_switcher.cpp): the process-wide
    instance, the authentication and EventSub flags, the stored tokens, and
    the reward-to-scene routing of redemptions. What the controller hands to
    other components (the dock, the OAuth helper's results, the scene
    switch it requests) is recorded as a trace of events. */
module Plugin {
  import opened Wrappers

  /** What the controller does outside its own fields. */
  datatype Event =
    | DockShown                      // `dock->showMain()`
    | AuthenticationSucceeded        // the `authenticationSucceeded` signal
    | SwitchRequested(scene: string) // `switchScene(name)`, a logging stub in this snapshot

  /** The token set the OAuth helper holds after an exchange. */
  class OAuthHelper {
    var accessToken: string
    var refreshToken: string
    var expiresAt: int

    constructor (accessToken: string, refreshToken: string, expiresAt: int)
      ensures this.accessToken == accessToken && this.refreshToken == refreshToken
      ensures this.expiresAt == expiresAt
    {
      this.accessToken := accessToken;
      this.refreshToken := refreshToken;
      this.expiresAt := expiresAt;
    }
  }

  /** The controller: every field starts out false, empty or 0. */
  class ObsSceneSwitcher {
    var authenticated: bool
    var eventsubConnected: bool
    var clientId: string
    var clientSecret: string
    var accessToken: string
    var refreshToken: string
    var expiresAt: int
    var rewardSceneMap: map<string, string>
    var events: seq<Event>
    const oauth: OAuthHelper

    /** The freshly constructed controller. */
    predicate Initial()
      reads this
    {
      !authenticated && !eventsubConnected && clientId == [] && clientSecret == []
      && accessToken == [] && refreshToken == [] && expiresAt == 0
      && rewardSceneMap == map[] && events == []
    }

    constructor (oauth: OAuthHelper)
      ensures Initial() && this.oauth == oauth
    {
      authenticated := false;
      eventsubConnected := false;
      clientId := [];
      clientSecret := [];
      accessToken := [];
      refreshToken := [];
      expiresAt := 0;
      rewardSceneMap := map[];
      events := [];
      this.oauth := oauth;
    }

    /** `start`: loads the client credentials from the configuration, and
        only when already authenticated shows the dock's main page and
        connects EventSub. */
    method Start(configClientId: string, configClientSecret: string)
      modifies this
      ensures clientId == configClientId && clientSecret == configClientSecret
      ensures authenticated == old(authenticated)
      ensures old(authenticated) ==> eventsubConnected && events == old(events) + [DockShown]
      ensures !old(authenticated) ==> eventsubConnected == old(eventsubConnected) && events == old(events)
      ensures accessToken == old(accessToken) && refreshToken == old(refreshToken)
      ensures expiresAt == old(expiresAt) && rewardSceneMap == old(rewardSceneMap)
    {
      clientId := configClientId;
      clientSecret := configClientSecret;
      if authenticated {
        events := events + [DockShown];
        ConnectEventSub();
      }
    }

    /** `stop`: always leaves EventSub disconnected. */
    method Stop()
      modifies this
      ensures !eventsubConnected
      ensures authenticated == old(authenticated) && events == old(events)
      ensures accessToken == old(accessToken) && refreshToken == old(refreshToken)
      ensures expiresAt == old(expiresAt) && rewardSceneMap == old(rewardSceneMap)
      ensures clientId == old(clientId) && clientSecret == old(clientSecret)
    {
      DisconnectEventSub();
    }

    /** `connectEventSub`: the connection itself is a stub; only the flag
        is set. */
    method ConnectEventSub()
      modifies this
      ensures eventsubConnected
      ensures authenticated == old(authenticated) && events == old(events)
      ensures clientId == old(clientId) && clientSecret == old(clientSecret)
      ensures accessToken == old(accessToken) && refreshToken == old(refreshToken)
      ensures expiresAt == old(expiresAt) && rewardSceneMap == old(rewardSceneMap)
    {
      eventsubConnected := true;
    }

    /** `disconnectEventSub`: clears the flag. */
    method DisconnectEventSub()
      modifies this
      ensures !eventsubConnected
      ensures authenticated == old(authenticated) && events == old(events)
      ensures clientId == old(clientId) && clientSecret == old(clientSecret)
      ensures accessToken == old(accessToken) && refreshToken == old(refreshToken)
      ensures expiresAt == old(expiresAt) && rewardSceneMap == old(rewardSceneMap)
    {
      eventsubConnected := false;
    }

    /** `handleOAuthCallback`: copies the helper's tokens and expiry and
        marks the controller authenticated; the code itself is only logged. */
    method HandleOAuthCallback(code: string)
      modifies this
      ensures authenticated
      ensures accessToken == oauth.accessToken && refreshToken == oauth.refreshToken
      ensures expiresAt == oauth.expiresAt
      ensures eventsubConnected == old(eventsubConnected) && events == old(events)
      ensures rewardSceneMap == old(rewardSceneMap)
      ensures clientId == old(clientId) && clientSecret == old(clientSecret)
    {
      accessToken := oauth.accessToken;
      refreshToken := oauth.refreshToken;
      expiresAt := oauth.expiresAt;
      authenticated := true;
    }

    /** `startOAuthLogin`: announces success without authenticating. */
    method StartOAuthLogin()
      modifies this
      ensures events == old(events) + [AuthenticationSucceeded]
      ensures authenticated == old(authenticated) && eventsubConnected == old(eventsubConnected)
      ensures accessToken == old(accessToken) && refreshToken == old(refreshToken)
      ensures expiresAt == old(expiresAt) && rewardSceneMap == old(rewardSceneMap)
      ensures clientId == old(clientId) && clientSecret == old(clientSecret)
    {
      events := events + [AuthenticationSucceeded];
    }

    /** `logout`: forgets both tokens and the expiry and drops the
        authenticated flag; EventSub is not touched. */
    method Logout()
      modifies this
      ensures !authenticated && accessToken == [] && refreshToken == [] && expiresAt == 0
      ensures eventsubConnected == old(eventsubConnected) && events == old(events)
      ensures rewardSceneMap == old(rewardSceneMap)
      ensures clientId == old(clientId) && clientSecret == old(clientSecret)
    {
      accessToken := [];
      refreshToken := [];
      expiresAt := 0;
      authenticated := false;
    }

    /** `onRedemptionReceived`: requests a switch to the scene mapped to the
        reward, and does nothing for an unmapped reward. The user name and
        input are only logged. */
    method OnRedemptionReceived(rewardId: string, userName: string, userInput: string)
      modifies this
      ensures events == old(events) + Requests(rewardSceneMap, rewardId)
      ensures authenticated == old(authenticated) && eventsubConnected == old(eventsubConnected)
      ensures accessToken == old(accessToken) && refreshToken == old(refreshToken)
      ensures expiresAt == old(expiresAt) && rewardSceneMap == old(rewardSceneMap)
      ensures clientId == old(clientId) && clientSecret == old(clientSecret)
    {
      if rewardId in rewardSceneMap {
        events := events + [SwitchRequested(rewardSceneMap[rewardId])];
      }
    }
  }

  /** The switch requests one redemption causes: one request for the
      mapped scene when the reward is mapped, none otherwise. */
  function Requests(routes: map<string, string>, rewardId: string): (r: seq<Event>)
    ensures |r| <= 1
    ensures r != [] <==> rewardId in routes
    ensures r != [] ==> r[0] == SwitchRequested(routes[rewardId])
  {
    if rewardId in routes then [SwitchRequested(routes[rewardId])] else []
  }

  /** The process-wide instance slot (`s_instance_`). */
  class Registry {
    var instance: ObsSceneSwitcher?

    constructor ()
      ensures instance == null
    {
      instance := null;
    }

    /** `instance()`: builds the controller on first use and returns that
        same one on every later call. */
    method Instance(oauth: OAuthHelper) returns (p: ObsSceneSwitcher)
      modifies this
      ensures old(instance) != null ==> p == old(instance) && instance == old(instance)
      ensures old(instance) == null ==> fresh(p) && p.Initial() && instance == p
    {
      if instance == null {
        instance := new ObsSceneSwitcher(oauth);
      }
      p := instance;
    }

    /** `destroy()`: drops the controller, so the next `instance()` builds
        a fresh one. */
    method Destroy()
      modifies this
      ensures instance == null
    {
      if instance != null {
        instance := null;
      }
    }
  }
}
