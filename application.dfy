/**
 * The parts of the application singleton the core reads and writes: the
 * signed-in user, the active controller and the session.
 */
module App {
  import opened Php
  import opened Authentication
  import opened Controllers
  import opened Sessions

  class Application {
    var user: Option<UserModel>
    var controller: Controller?
    const session: Session

    /**
     * A fresh application over a started session, with nobody signed in.
     * Restoring the user from the session's `'user'` key needs a database
     * query and is not part of this model.
     */
    constructor (session: Session)
      ensures this.session == session
      ensures user == None && controller == null
    {
      this.session := session;
      user := None;
      controller := null;
    }
  }
}
