/**
 * The `auth` slice of the Redux store (src/store/slices/authSlice.ts). Every reducer keeps
 * `isAuthenticated` equal to "there is a user".
 */
module AuthSlice {
  import opened Common
  import opened Types

  class AuthState {
    var user: Option<Student>
    var isAuthenticated: bool
    var isLoading: bool
    var error: Option<string>

    /** The flag says whether a user is signed in. */
    ghost predicate Valid()
      reads this
    {
      isAuthenticated <==> user.Some?
    }

    /** `initialState`. */
    constructor()
      ensures Valid()
      ensures user == None && !isAuthenticated && !isLoading && error == None
    {
      user := None;
      isAuthenticated := false;
      isLoading := false;
      error := None;
    }

    method ClearError()
      requires Valid()
      modifies this`error
      ensures Valid()
      ensures error == None
    {
      error := None;
    }

    /** `setUser`: signs the user in and clears the error; the loading flag is untouched. */
    method SetUser(s: Student)
      modifies this`user, this`isAuthenticated, this`error
      ensures Valid()
      ensures user == Some(s) && isAuthenticated && error == None
    {
      user := Some(s);
      isAuthenticated := true;
      error := None;
    }

    method ResetAuth()
      modifies this
      ensures Valid()
      ensures user == None && !isAuthenticated && !isLoading && error == None
    {
      user := None;
      isAuthenticated := false;
      isLoading := false;
      error := None;
    }

    /** `updateUser`: replaces the user only when a user with the same id is signed in. */
    method UpdateUser(s: Student)
      requires Valid()
      modifies this`user
      ensures Valid()
      ensures old(user).Some? && old(user).value.id == s.id ==> user == Some(s)
      ensures !(old(user).Some? && old(user).value.id == s.id) ==> user == old(user)
    {
      if user.Some? && user.value.id == s.id {
        user := Some(s);
      }
    }

    /** The pending case of login, register and updateProfile. */
    method ThunkPending()
      requires Valid()
      modifies this`isLoading, this`error
      ensures Valid()
      ensures isLoading && error == None
    {
      isLoading := true;
      error := None;
    }

    /** The pending case of logout, which leaves the error in place. */
    method LogoutPending()
      requires Valid()
      modifies this`isLoading
      ensures Valid()
      ensures isLoading
    {
      isLoading := true;
    }

    /** The fulfilled case of login and of register. */
    method SignInFulfilled(s: Student)
      modifies this
      ensures Valid()
      ensures user == Some(s) && isAuthenticated && !isLoading && error == None
    {
      isLoading := false;
      user := Some(s);
      isAuthenticated := true;
      error := None;
    }

    /** The rejected case of every thunk: the user is left as it was. */
    method ThunkRejected(reason: string)
      requires Valid()
      modifies this`isLoading, this`error
      ensures Valid()
      ensures !isLoading && error == Some(RejectedError(reason))
    {
      isLoading := false;
      error := Some(RejectedError(reason));
    }

    method LogoutFulfilled()
      modifies this
      ensures Valid()
      ensures user == None && !isAuthenticated && !isLoading && error == None
    {
      isLoading := false;
      user := None;
      isAuthenticated := false;
      error := None;
    }

    /** `updateProfile` fulfilled: merges the updates into the user, if there is one. */
    method UpdateProfileFulfilled(updates: StudentPatch, now: string)
      requires Valid()
      modifies this`user, this`isLoading, this`error
      ensures Valid()
      ensures old(user).Some? ==> user == Some(MergeStudent(old(user).value, updates, now))
      ensures old(user).None? ==> user == None
      ensures !isLoading && error == None
    {
      isLoading := false;
      if user.Some? {
        user := Some(MergeStudent(user.value, updates, now));
      }
      error := None;
    }
  }
}
